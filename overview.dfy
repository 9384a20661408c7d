/** The "Scores Overview" view: the category filter with its "All" choice, the left join of the
    films with their score records, the five-key ranking and the displayed columns; and the
    hours-and-minutes split of a running time shown on a programme card. */
module Overview {
  import opened Wrappers
  import opened Text
  import opened Sheets
  import opened Scoring

  /** The choice in the category filter that stands for every category. */
  const ALL: string := "All"

  /** A row of the films sheet, with the columns the overview uses. */
  datatype Film = Film(category: string, programmeId: string, internationalTitle: string,
                       originalTitle: string, year: int, runningTime: int)

  /** A row of the selection sheet, with the columns the overview uses. The flag is text, as the
      sheet hands back its booleans ("TRUE", "FALSE"). */
  datatype ScoreRow = ScoreRow(programmeId: string, averageScore: real, isSelected: string)

  /** A row of the left join: a film without a score record has no average and no flag. */
  datatype MergedRow = MergedRow(film: Film, averageScore: Option<real>, isSelected: Option<string>)

  /** A row of the displayed table. */
  datatype DisplayRow = DisplayRow(category: string, internationalTitle: string, originalTitle: string,
                                   year: int, runningTime: int, averageScore: real, isSelected: bool)

  // ---------------------------------------------------------------------------
  // The category filter
  // ---------------------------------------------------------------------------

  /** The chosen categories, with "All" standing for every key of the category codes. */
  function ExpandCategories(codes: map<string, string>, chosen: set<string>): set<string> {
    if ALL in chosen then codes.Keys else chosen
  }

  /** `films_df[films_df["CATEGORY"].isin(selected)]`: the films of those categories, in order. */
  function FilterByCategories(films: seq<Film>, selected: set<string>): (r: seq<Film>)
    ensures |r| <= |films|
    ensures forall f :: f in r <==> f in films && f.category in selected
  {
    if films == [] then []
    else if films[0].category in selected then [films[0]] + FilterByCategories(films[1..], selected)
    else FilterByCategories(films[1..], selected)
  }

  /** Filtering a concatenation filters each part, so the filter keeps the films' order. */
  lemma {:induction false} FilterSplit(a: seq<Film>, b: seq<Film>, selected: set<string>)
    ensures FilterByCategories(a + b, selected) == FilterByCategories(a, selected) + FilterByCategories(b, selected)
  {
    if a == [] {
      assert a + b == b;
    } else {
      assert (a + b)[1..] == a[1..] + b;
      FilterSplit(a[1..], b, selected);
    }
  }

  /** A film is shown exactly when its category is chosen, or when "All" is chosen and the
      category is one of the coded ones. */
  lemma FilterSelection(films: seq<Film>, codes: map<string, string>, chosen: set<string>, f: Film)
    ensures var shown := FilterByCategories(films, ExpandCategories(codes, chosen));
            f in shown <==> f in films && (if ALL in chosen then f.category in codes else f.category in chosen)
  {
  }

  /** The "View Programmes" tab: each category it lists is a coded one when "All" is chosen and a
      chosen one otherwise, and its section shows exactly the films of that category
      (`films_df[films_df["CATEGORY"] == cat]`). */
  lemma ProgrammesSection(films: seq<Film>, codes: map<string, string>, chosen: set<string>, cat: string)
    requires cat in ExpandCategories(codes, chosen)
    ensures ALL in chosen ==> cat in codes
    ensures ALL !in chosen ==> cat in chosen
    ensures forall f :: f in FilterByCategories(films, {cat}) <==> f in films && f.category == cat
  {
  }

  /** With "All" chosen, every film of a coded category is shown, in the order of the sheet. */
  lemma {:induction false} FilterAllKeepsEveryFilm(films: seq<Film>, codes: map<string, string>, chosen: set<string>)
    requires ALL in chosen
    requires forall i :: 0 <= i < |films| ==> films[i].category in codes
    ensures FilterByCategories(films, ExpandCategories(codes, chosen)) == films
  {
    if films != [] {
      var tail := films[1..];
      assert forall i :: 0 <= i < |tail| ==> tail[i] == films[i + 1];
      FilterAllKeepsEveryFilm(tail, codes, chosen);
      assert films[0].category in ExpandCategories(codes, chosen);
      assert films == [films[0]] + tail;
    }
  }

  // ---------------------------------------------------------------------------
  // The left join on PROGRAMME_ID
  // ---------------------------------------------------------------------------

  /** The score rows of one film: one merged row per matching score row, in order, or a single
      row without scores when nothing matches. */
  function MergeOne(f: Film, scores: seq<ScoreRow>): (m: seq<MergedRow>)
    ensures |m| >= 1 && forall i :: 0 <= i < |m| ==> m[i].film == f
  {
    var matching := Matching(f.programmeId, scores);
    if matching == [] then [MergedRow(f, None, None)]
    else seq(|matching|, i requires 0 <= i < |matching| =>
           MergedRow(f, Some(matching[i].averageScore), Some(matching[i].isSelected)))
  }

  /** The score rows with the ID, in order. */
  function Matching(id: string, scores: seq<ScoreRow>): (m: seq<ScoreRow>)
    ensures forall s :: s in m <==> s in scores && s.programmeId == id
  {
    if scores == [] then []
    else if scores[0].programmeId == id then [scores[0]] + Matching(id, scores[1..])
    else Matching(id, scores[1..])
  }

  /** `films.merge(selection, on="PROGRAMME_ID", how="left")`. */
  function MergeLeft(films: seq<Film>, scores: seq<ScoreRow>): (m: seq<MergedRow>)
    ensures |m| >= |films|
    ensures forall f :: f in films <==> exists i :: 0 <= i < |m| && m[i].film == f
  {
    if films == [] then []
    else
      var a := MergeOne(films[0], scores);
      var b := MergeLeft(films[1..], scores);
      assert films == [films[0]] + films[1..];
      JoinedFilms(films[0], films[1..], a, b);
      a + b
  }

  /** The rows joined for one film, followed by those joined for the rest, carry exactly the
      films of the whole table. */
  lemma JoinedFilms(f: Film, rest: seq<Film>, a: seq<MergedRow>, b: seq<MergedRow>)
    requires |a| >= 1 && forall i :: 0 <= i < |a| ==> a[i].film == f
    requires forall g :: g in rest <==> exists i :: 0 <= i < |b| && b[i].film == g
    ensures forall g :: g in [f] + rest <==> exists i :: 0 <= i < |a + b| && (a + b)[i].film == g
  {
    var m := a + b;
    forall g | g in [f] + rest
      ensures exists i :: 0 <= i < |m| && m[i].film == g
    {
      if g == f {
        assert m[0] == a[0];
      } else {
        assert g in rest;
        var i :| 0 <= i < |b| && b[i].film == g;
        assert m[|a| + i] == b[i];
      }
    }
    forall i | 0 <= i < |m|
      ensures m[i].film in [f] + rest
    {
      if i < |a| {
        assert m[i] == a[i];
      } else {
        assert m[i] == b[i - |a|];
        assert b[i - |a|].film in rest;
      }
    }
  }

  /** No two score rows share a programme ID. */
  predicate UniqueScoreIds(scores: seq<ScoreRow>) {
    forall i, j :: 0 <= i < j < |scores| ==> scores[i].programmeId != scores[j].programmeId
  }

  lemma {:induction false} MatchingNone(id: string, scores: seq<ScoreRow>)
    requires forall k :: 0 <= k < |scores| ==> scores[k].programmeId != id
    ensures Matching(id, scores) == []
  {
    if scores != [] {
      MatchingNone(id, scores[1..]);
    }
  }

  lemma {:induction false} MatchingUnique(id: string, scores: seq<ScoreRow>)
    requires UniqueScoreIds(scores)
    ensures |Matching(id, scores)| <= 1
  {
    if scores != [] {
      var tail := scores[1..];
      assert UniqueScoreIds(tail) by {
        forall i, j | 0 <= i < j < |tail| ensures tail[i].programmeId != tail[j].programmeId {
          assert tail[i] == scores[i + 1] && tail[j] == scores[j + 1];
        }
      }
      MatchingUnique(id, tail);
      if scores[0].programmeId == id {
        forall k | 0 <= k < |tail| ensures tail[k].programmeId != id {
          assert tail[k] == scores[k + 1];
        }
        MatchingNone(id, tail);
      }
    }
  }

  /** With one score record per ID a film joins to one row, carrying that record's average and
      flag, or none when the film has no record. */
  lemma MergeOneRow(f: Film, scores: seq<ScoreRow>)
    requires UniqueScoreIds(scores)
    ensures var m := MergeOne(f, scores);
            && |m| == 1 && m[0].film == f
            && (m[0].averageScore.Some? <==> exists s :: s in scores && s.programmeId == f.programmeId)
            && (m[0].isSelected.Some? <==> m[0].averageScore.Some?)
            && (m[0].averageScore.Some? ==>
                  exists s :: s in scores && s.programmeId == f.programmeId
                    && m[0].averageScore == Some(s.averageScore) && m[0].isSelected == Some(s.isSelected))
  {
    var matching := Matching(f.programmeId, scores);
    MatchingUnique(f.programmeId, scores);
    if matching != [] {
      assert matching[0] in matching;
    }
  }

  /** With one score record per ID the join keeps the films one for one and in order. */
  lemma {:induction false} MergeLeftOneToOne(films: seq<Film>, scores: seq<ScoreRow>)
    requires UniqueScoreIds(scores)
    ensures var m := MergeLeft(films, scores);
            && |m| == |films|
            && forall i :: 0 <= i < |m| ==> m[i] == MergeOne(films[i], scores)[0]
  {
    if films != [] {
      MergeLeftOneToOne(films[1..], scores);
      MergeOneRow(films[0], scores);
      var m := MergeLeft(films, scores);
      forall i | 0 <= i < |m| ensures m[i] == MergeOne(films[i], scores)[0] {
        if i > 0 {
          assert m[i] == MergeLeft(films[1..], scores)[i - 1];
          assert films[i] == films[1..][i - 1];
        }
      }
    }
  }

  // ---------------------------------------------------------------------------
  // The ranking
  // ---------------------------------------------------------------------------

  /** A key in descending order with missing values last: -1 when `a` comes first. */
  function CmpSelected(a: Option<string>, b: Option<string>): int {
    match (a, b)
    case (None, None) => 0
    case (None, Some(_)) => 1
    case (Some(_), None) => -1
    case (Some(x), Some(y)) => StrCmp(y, x)
  }

  function CmpAverage(a: Option<real>, b: Option<real>): int {
    match (a, b)
    case (None, None) => 0
    case (None, Some(_)) => 1
    case (Some(_), None) => -1
    case (Some(x), Some(y)) => if x > y then -1 else if x < y then 1 else 0
  }

  /** Integers ascending: -1 when `a` comes first. */
  function CmpInt(a: int, b: int): int {
    if a < b then -1 else if a > b then 1 else 0
  }

  /** The overview's order: IS_SELECTED descending, AVERAGE_SCORE descending, YEAR descending,
      RUNNING_TIME ascending, PROGRAMME_ID ascending, each key deciding only when the ones before
      it tie; a missing flag or average sorts last. */
  function RankCmp(a: MergedRow, b: MergedRow): (c: int)
    ensures -1 <= c <= 1
  {
    var s := CmpSelected(a.isSelected, b.isSelected);
    if s != 0 then s else
    var v := CmpAverage(a.averageScore, b.averageScore);
    if v != 0 then v else
    var y := CmpInt(b.film.year, a.film.year);
    if y != 0 then y else
    var t := CmpInt(a.film.runningTime, b.film.runningTime);
    if t != 0 then t else
    StrCmp(a.film.programmeId, b.film.programmeId)
  }

  lemma CmpSelectedLaws(a: Option<string>, b: Option<string>, c: Option<string>)
    ensures CmpSelected(b, a) == -CmpSelected(a, b)
    ensures CmpSelected(a, b) == 0 <==> a == b
    ensures CmpSelected(a, b) <= 0 && CmpSelected(b, c) <= 0 ==> CmpSelected(a, c) <= 0
  {
    if a.Some? && b.Some? {
      StrCmpFlip(b.value, a.value);
      StrCmpZero(b.value, a.value);
      if c.Some? && CmpSelected(a, b) <= 0 && CmpSelected(b, c) <= 0 {
        StrCmpTrans(c.value, b.value, a.value);
      }
    }
  }

  /** The ranking order is antisymmetric: swapping two rows flips the comparison. */
  lemma RankCmpFlip(a: MergedRow, b: MergedRow)
    ensures RankCmp(b, a) == -RankCmp(a, b)
  {
    CmpSelectedLaws(a.isSelected, b.isSelected, b.isSelected);
    StrCmpFlip(a.film.programmeId, b.film.programmeId);
  }

  /** Two rows tie exactly when all five keys are equal. */
  lemma RankCmpTie(a: MergedRow, b: MergedRow)
    ensures RankCmp(a, b) == 0 <==>
              a.isSelected == b.isSelected && a.averageScore == b.averageScore
              && a.film.year == b.film.year && a.film.runningTime == b.film.runningTime
              && a.film.programmeId == b.film.programmeId
  {
    CmpSelectedLaws(a.isSelected, b.isSelected, b.isSelected);
    StrCmpZero(a.film.programmeId, b.film.programmeId);
  }

  /** The ranking order is transitive. */
  lemma RankCmpTrans(a: MergedRow, b: MergedRow, c: MergedRow)
    requires RankCmp(a, b) <= 0 && RankCmp(b, c) <= 0
    ensures RankCmp(a, c) <= 0
  {
    CmpSelectedLaws(a.isSelected, b.isSelected, c.isSelected);
    CmpSelectedLaws(b.isSelected, c.isSelected, a.isSelected);
    CmpSelectedLaws(a.isSelected, c.isSelected, b.isSelected);
    var x, y, z := a.film.programmeId, b.film.programmeId, c.film.programmeId;
    StrCmpZero(x, y);
    StrCmpZero(y, z);
    if StrCmp(x, y) <= 0 && StrCmp(y, z) <= 0 {
      StrCmpTrans(x, y, z);
    }
  }

  predicate Sorted(s: seq<MergedRow>) {
    forall i, j :: 0 <= i < j < |s| ==> RankCmp(s[i], s[j]) <= 0
  }

  /** Insert `x` before the first row it does not follow. */
  function Insert(x: MergedRow, s: seq<MergedRow>): (r: seq<MergedRow>)
    ensures multiset(r) == multiset(s) + multiset{x}
    ensures Sorted(s) ==> Sorted(r)
  {
    if s == [] then [x]
    else if RankCmp(x, s[0]) <= 0 then
      InsertFront(x, s);
      [x] + s
    else
      var rest := Insert(x, s[1..]);
      InsertLater(x, s, rest);
      [s[0]] + rest
  }

  lemma InsertFront(x: MergedRow, s: seq<MergedRow>)
    requires s != [] && RankCmp(x, s[0]) <= 0
    ensures Sorted(s) ==> Sorted([x] + s)
  {
    if Sorted(s) {
      var r := [x] + s;
      forall i, j | 0 <= i < j < |r| ensures RankCmp(r[i], r[j]) <= 0 {
        if i == 0 && j > 1 {
          RankCmpTrans(x, s[0], s[j - 1]);
        }
      }
    }
  }

  lemma {:induction false} SortedTail(s: seq<MergedRow>)
    requires s != [] && Sorted(s)
    ensures Sorted(s[1..])
    ensures forall z :: z in multiset(s[1..]) ==> RankCmp(s[0], z) <= 0
  {
    var t := s[1..];
    forall i, j | 0 <= i < j < |t| ensures RankCmp(t[i], t[j]) <= 0 {
      assert t[i] == s[i + 1] && t[j] == s[j + 1];
    }
    forall z | z in multiset(t) ensures RankCmp(s[0], z) <= 0 {
      assert z in t;
      var k :| 0 <= k < |t| && t[k] == z;
      assert s[k + 1] == z;
    }
  }

  lemma {:induction false} SortedCons(h: MergedRow, t: seq<MergedRow>)
    requires Sorted(t)
    requires forall z :: z in multiset(t) ==> RankCmp(h, z) <= 0
    ensures Sorted([h] + t)
  {
    var r := [h] + t;
    forall i, j | 0 <= i < j < |r| ensures RankCmp(r[i], r[j]) <= 0 {
      if i == 0 {
        assert r[j] == t[j - 1] && t[j - 1] in multiset(t);
      } else {
        assert r[i] == t[i - 1] && r[j] == t[j - 1];
      }
    }
  }

  lemma InsertLater(x: MergedRow, s: seq<MergedRow>, rest: seq<MergedRow>)
    requires s != [] && RankCmp(x, s[0]) > 0
    requires multiset(rest) == multiset(s[1..]) + multiset{x}
    requires Sorted(s[1..]) ==> Sorted(rest)
    ensures multiset([s[0]] + rest) == multiset(s) + multiset{x}
    ensures Sorted(s) ==> Sorted([s[0]] + rest)
  {
    assert s == [s[0]] + s[1..];
    if Sorted(s) {
      SortedTail(s);
      RankCmpFlip(x, s[0]);
      SortedCons(s[0], rest);
    }
  }

  /** `sort_values` on the five keys: a stable sort by the ranking order. */
  function Rank(rows: seq<MergedRow>): (r: seq<MergedRow>)
    ensures multiset(r) == multiset(rows) && |r| == |rows|
    ensures Sorted(r)
  {
    if rows == [] then []
    else
      assert rows == [rows[0]] + rows[1..];
      Insert(rows[0], Rank(rows[1..]))
  }

  /** Ranking ranked rows changes nothing. */
  lemma {:induction false} RankSorted(rows: seq<MergedRow>)
    requires Sorted(rows)
    ensures Rank(rows) == rows
  {
    if rows != [] {
      assert Sorted(rows[1..]) by {
        forall i, j | 0 <= i < j < |rows[1..]| ensures RankCmp(rows[1..][i], rows[1..][j]) <= 0 {
          assert rows[1..][i] == rows[i + 1] && rows[1..][j] == rows[j + 1];
        }
      }
      RankSorted(rows[1..]);
      if |rows| > 1 {
        assert RankCmp(rows[0], rows[1]) <= 0;
      }
    }
  }

  /** The rows tied with `k` on all five keys, in order. */
  function TiedWith(s: seq<MergedRow>, k: MergedRow): seq<MergedRow> {
    if s == [] then []
    else if RankCmp(s[0], k) == 0 then [s[0]] + TiedWith(s[1..], k)
    else TiedWith(s[1..], k)
  }

  /** Two rows tied with a third are tied with each other. */
  lemma TiedTogether(x: MergedRow, y: MergedRow, k: MergedRow)
    requires RankCmp(x, k) == 0 && RankCmp(y, k) == 0
    ensures RankCmp(x, y) == 0
  {
    RankCmpTie(x, k);
    RankCmpTie(y, k);
    RankCmpTie(x, y);
  }

  /** Inserting a row keeps it in front of the rows it ties with. */
  lemma {:induction false} InsertTied(x: MergedRow, s: seq<MergedRow>, k: MergedRow)
    ensures TiedWith(Insert(x, s), k) == TiedWith([x] + s, k)
  {
    if s != [] && RankCmp(x, s[0]) > 0 {
      InsertTied(x, s[1..], k);
      assert ([x] + s[1..])[1..] == s[1..];
      assert ([x] + s)[1..] == s;
      if RankCmp(x, k) == 0 && RankCmp(s[0], k) == 0 {
        TiedTogether(x, s[0], k);
      }
    }
  }

  /** The sort is stable: rows that tie on all five keys keep their relative order. */
  lemma {:induction false} RankStable(rows: seq<MergedRow>, k: MergedRow)
    ensures TiedWith(Rank(rows), k) == TiedWith(rows, k)
  {
    if rows != [] {
      RankStable(rows[1..], k);
      InsertTied(rows[0], Rank(rows[1..]), k);
      assert ([rows[0]] + Rank(rows[1..]))[1..] == Rank(rows[1..]);
    }
  }

  /** In the ranked table, a row before another is selected when the other is, has the higher
      average when both flags are equal, and so on down the five keys. */
  lemma RankedLexicographic(rows: seq<MergedRow>, i: nat, j: nat)
    requires i < j < |Rank(rows)|
    ensures var a, b := Rank(rows)[i], Rank(rows)[j];
            && CmpSelected(a.isSelected, b.isSelected) <= 0
            && (a.isSelected == b.isSelected ==> CmpAverage(a.averageScore, b.averageScore) <= 0)
            && (a.isSelected == b.isSelected && a.averageScore == b.averageScore ==> a.film.year >= b.film.year)
            && ((a.isSelected == b.isSelected && a.averageScore == b.averageScore && a.film.year == b.film.year)
                  ==> a.film.runningTime <= b.film.runningTime)
            && ((a.isSelected == b.isSelected && a.averageScore == b.averageScore && a.film.year == b.film.year
                 && a.film.runningTime == b.film.runningTime)
                  ==> StrCmp(a.film.programmeId, b.film.programmeId) <= 0)
  {
    var a, b := Rank(rows)[i], Rank(rows)[j];
    assert RankCmp(a, b) <= 0;
    CmpSelectedLaws(a.isSelected, b.isSelected, b.isSelected);
  }

  // ---------------------------------------------------------------------------
  // The displayed table
  // ---------------------------------------------------------------------------

  /** The displayed row: a missing average shows as 0, and the flag is read as the text "TRUE"
      in any casing and with any surrounding whitespace (a missing flag is the text "nan"). */
  function Display(m: MergedRow): DisplayRow {
    DisplayRow(m.film.category, m.film.internationalTitle, m.film.originalTitle, m.film.year,
               m.film.runningTime, m.averageScore.GetOr(0.0),
               m.isSelected.Some? && SelectedFlag(Text(m.isSelected.value)))
  }

  function DisplayAll(rows: seq<MergedRow>): (d: seq<DisplayRow>)
    ensures |d| == |rows|
  {
    seq(|rows|, i requires 0 <= i < |rows| => Display(rows[i]))
  }

  /** A joined row as the sheets produce it: a flag the sheet wrote back as "TRUE" or "FALSE",
      a non-negative average, and both present or both missing. */
  predicate WellFormedRow(m: MergedRow) {
    && (m.isSelected.Some? <==> m.averageScore.Some?)
    && (m.isSelected.Some? ==> m.isSelected.value == "TRUE" || m.isSelected.value == "FALSE")
    && (m.averageScore.Some? ==> m.averageScore.value >= 0.0)
  }

  lemma DisplayedFlags()
    ensures SelectedFlag(Text("TRUE")) && !SelectedFlag(Text("FALSE"))
    ensures StrCmp("TRUE", "FALSE") == 1
  {
    SelectedFlagAcceptsWord("TRUE");
    SelectedFlagRejectsWord("FALSE");
  }

  /** Of two well-formed rows in ranking order, the first is shown selected when the second is. */
  lemma DisplayedSelectedFirst(a: MergedRow, b: MergedRow)
    requires WellFormedRow(a) && WellFormedRow(b) && RankCmp(a, b) <= 0
    ensures Display(b).isSelected ==> Display(a).isSelected
  {
    DisplayedFlags();
    StrCmpFlip("TRUE", "FALSE");
  }

  /** Of two well-formed rows in ranking order shown with the same flag, the first shows at
      least the second's average. */
  lemma DisplayedAverageOrder(a: MergedRow, b: MergedRow)
    requires WellFormedRow(a) && WellFormedRow(b) && RankCmp(a, b) <= 0
    ensures Display(a).isSelected == Display(b).isSelected ==> Display(a).averageScore >= Display(b).averageScore
  {
    if a.isSelected.Some? && b.isSelected.Some? && a.isSelected == b.isSelected {
      StrCmpZero(b.isSelected.value, a.isSelected.value);
      assert CmpAverage(a.averageScore, b.averageScore) <= 0;
    } else if a.isSelected.Some? && b.isSelected.Some? {
      DisplayedFlags();
      assert Display(a).isSelected != Display(b).isSelected;
    }
  }

  /** In the displayed ranking the selected films come first, and among films shown with the
      same flag the displayed average never increases. */
  lemma DisplayedRanking(rows: seq<MergedRow>, i: nat, j: nat)
    requires forall k :: 0 <= k < |rows| ==> WellFormedRow(rows[k])
    requires i < j < |rows|
    ensures var d := DisplayAll(Rank(rows));
            && (d[j].isSelected ==> d[i].isSelected)
            && (d[i].isSelected == d[j].isSelected ==> d[i].averageScore >= d[j].averageScore)
  {
    var r := Rank(rows);
    var a, b := r[i], r[j];
    assert a in multiset(rows) && b in multiset(rows);
    assert WellFormedRow(a) && WellFormedRow(b);
    DisplayedSelectedFirst(a, b);
    DisplayedAverageOrder(a, b);
  }

  // ---------------------------------------------------------------------------
  // Running time on a programme card
  // ---------------------------------------------------------------------------

  /** `RUNNING_TIME // 60` hours and `RUNNING_TIME % 60` minutes, with Python's floor division. */
  function HoursMinutes(runningTime: int): (hm: (int, int))
    ensures hm.0 * 60 + hm.1 == runningTime && 0 <= hm.1 < 60
  {
    (runningTime / 60, runningTime % 60)
  }

  /** The split is the only one with minutes in 0..59. */
  lemma HoursMinutesUnique(runningTime: int, hours: int, minutes: int)
    requires hours * 60 + minutes == runningTime && 0 <= minutes < 60
    ensures HoursMinutes(runningTime) == (hours, minutes)
  {
    var hm := HoursMinutes(runningTime);
    WholeHours(hm.0, hours);
    WholeHours(hours, hm.0);
  }

  lemma WholeHours(a: int, b: int)
    ensures a < b <==> a * 60 + 60 <= b * 60
  {
  }
}

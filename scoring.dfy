/** The "Select Films" view: the average of the five criteria, the form's defaults taken from an
    existing score record, the record built for saving, and the upsert by programme ID that is
    then written back over the whole selection sheet. */
module Scoring {
  import opened Wrappers
  import opened Text
  import opened Sheets
  import opened ProgrammeRegistry

  const CRITERION_COLUMNS: seq<string> :=
    ["SYNOPSIS", "TRAILER", "DIRECTOR_PROFILE", "WRITER_PROFILE", "LETTERBOXD_REVIEWS"]

  /** The columns of a saved score record, in the order the record is built. */
  const SCORE_COLUMNS: seq<string> :=
    ["PROGRAMME_ID"] + CRITERION_COLUMNS + ["AVERAGE_SCORE", "IS_SELECTED"]

  // ---------------------------------------------------------------------------
  // The average score
  // ---------------------------------------------------------------------------

  /** `[s for s in scores if s > 0]`. */
  function Positives(scores: seq<int>): seq<int> {
    if scores == [] then []
    else if scores[0] > 0 then [scores[0]] + Positives(scores[1..])
    else Positives(scores[1..])
  }

  /** The rated criteria are positive scores, and there are none exactly when no score is
      positive. */
  lemma {:induction false} PositivesRated(scores: seq<int>)
    ensures var p := Positives(scores);
            && |p| <= |scores|
            && (forall i :: 0 <= i < |p| ==> p[i] > 0 && p[i] in scores)
            && (p == [] <==> forall i :: 0 <= i < |scores| ==> scores[i] <= 0)
  {
    if scores != [] {
      PositivesRated(scores[1..]);
      assert forall i :: 0 <= i < |scores[1..]| ==> scores[1..][i] == scores[i + 1];
      assert forall x :: x in scores[1..] ==> x in scores;
    }
  }

  /** Every positive score is rated, as often as it occurs, and nothing else is. */
  lemma {:induction false} PositivesCount(scores: seq<int>)
    ensures forall x :: multiset(Positives(scores))[x] == if x > 0 then multiset(scores)[x] else 0
  {
    if scores != [] {
      PositivesCount(scores[1..]);
      assert scores == [scores[0]] + scores[1..];
      assert multiset(scores) == multiset{scores[0]} + multiset(scores[1..]);
      if scores[0] > 0 {
        assert Positives(scores) == [scores[0]] + Positives(scores[1..]);
        assert multiset(Positives(scores)) == multiset{scores[0]} + multiset(Positives(scores[1..]));
      }
    }
  }

  function Sum(s: seq<int>): int {
    if s == [] then 0 else s[0] + Sum(s[1..])
  }

  /** `sum(valid_scores) / len(valid_scores) if valid_scores else 0`, over the reals. */
  function AverageScore(scores: seq<int>): real {
    var p := Positives(scores);
    if p == [] then 0.0 else Sum(p) as real / |p| as real
  }

  lemma {:induction false} PositivesSplit(a: seq<int>, b: seq<int>)
    ensures Positives(a + b) == Positives(a) + Positives(b)
  {
    if a == [] {
      assert a + b == b;
    } else {
      assert (a + b)[1..] == a[1..] + b;
      PositivesSplit(a[1..], b);
    }
  }

  lemma {:induction false} SumBounds(p: seq<int>, hi: int)
    requires forall i :: 0 <= i < |p| ==> 1 <= p[i] <= hi
    ensures |p| <= Sum(p) <= hi * |p|
  {
    if p != [] {
      SumBounds(p[1..], hi);
    }
  }

  /** Multiplying by a positive number keeps the order. */
  lemma MulMonotone(a: real, b: real, n: real)
    requires n > 0.0
    ensures a <= b <==> a * n <= b * n
  {
    var d := b - a;
    assert b * n == a * n + d * n;
    if d >= 0.0 {
      assert d * n >= 0.0;
    } else {
      assert d * n < 0.0;
    }
  }
  /** A total between n and 5n means an average between 1 and 5. */
  lemma MeanBounds(total: real, n: real)
    requires n > 0.0 && n <= total <= 5.0 * n
    ensures 1.0 <= total / n <= 5.0
  {
    var q := total / n;
    assert q * n == total;
    MulMonotone(q, 5.0, n);
    assert q * n <= 5.0 * n;
    assert q <= 5.0;
    MulMonotone(1.0, q, n);
    assert 1.0 * n <= q * n;
    assert 1.0 <= q;
  }

  /** With every criterion in 0..5: no positive criterion gives 0, and any positive criterion
      puts the average between 1 and 5. */
  lemma AverageBounds(scores: seq<int>)
    requires forall i :: 0 <= i < |scores| ==> 0 <= scores[i] <= 5
    ensures (forall i :: 0 <= i < |scores| ==> scores[i] == 0) ==> AverageScore(scores) == 0.0
    ensures (exists i :: 0 <= i < |scores| && scores[i] > 0) ==> 1.0 <= AverageScore(scores) <= 5.0
  {
    var p := Positives(scores);
    PositivesRated(scores);
    if p != [] {
      forall i | 0 <= i < |p| ensures 1 <= p[i] <= 5 {
        assert p[i] in scores;
      }
      SumBounds(p, 5);
      MeanBounds(Sum(p) as real, |p| as real);
    }
  }

  /** An unrated criterion (0), wherever it stands, does not change the average. */
  lemma AverageIgnoresZeros(a: seq<int>, b: seq<int>)
    ensures AverageScore(a + [0] + b) == AverageScore(a + b)
  {
    PositivesSplit(a + [0], b);
    PositivesSplit(a, [0]);
    PositivesSplit(a, b);
    assert Positives([0]) == [];
    assert Positives(a) + [] == Positives(a);
  }

  /** One rated criterion is the average. */
  lemma AverageOfOneRated()
    ensures AverageScore([0, 0, 0, 0, 5]) == 5.0
  {
    assert Positives([5]) == [5];
    assert Positives([0, 5]) == [5];
    assert Positives([0, 0, 5]) == [5];
    assert Positives([0, 0, 0, 5]) == [5];
    assert Positives([0, 0, 0, 0, 5]) == [5];
  }

  /** Only the rated criteria count towards the average. */
  lemma AverageOfTwoRated()
    ensures AverageScore([3, 4, 0, 0, 0]) == 3.5
  {
    assert Positives([0]) == [];
    assert Positives([0, 0]) == [];
    assert Positives([0, 0, 0]) == [];
    assert Positives([4, 0, 0, 0]) == [4];
    assert Positives([3, 4, 0, 0, 0]) == [3, 4];
    assert Sum([3, 4]) == 7;
  }

  /** Nothing rated gives 0. */
  lemma AverageOfNoneRated()
    ensures AverageScore([0, 0, 0, 0, 0]) == 0.0
  {
    assert Positives([0, 0, 0, 0, 0]) == [];
  }

  /** A sum of positive numbers is positive. */
  lemma {:induction false} SumPositive(p: seq<int>)
    requires p != [] && forall i :: 0 <= i < |p| ==> p[i] > 0
    ensures Sum(p) > 0
  {
    if |p| > 1 {
      SumPositive(p[1..]);
    }
  }

  /** The average as the record holds it: the int 0 exactly when nothing is rated, and
      otherwise the average as a positive float. */
  function AverageCell(scores: seq<int>): (c: Cell)
    ensures c == Int(0) <==> forall i :: 0 <= i < |scores| ==> scores[i] <= 0
    ensures c != Int(0) ==> c == Real(AverageScore(scores)) && AverageScore(scores) > 0.0
  {
    PositivesRated(scores);
    var p := Positives(scores);
    if p == [] then Int(0)
    else
      SumPositive(p);
      Real(AverageScore(scores))
  }

  // ---------------------------------------------------------------------------
  // The record built for saving
  // ---------------------------------------------------------------------------

  /** `new_entry`: the programme ID, the five criteria, their average and the selected flag. */
  function NewEntry(id: Cell, criteria: seq<int>, isSelected: bool): Record
    requires |criteria| == 5
  {
    map[
      "PROGRAMME_ID" := id,
      "SYNOPSIS" := Int(criteria[0]),
      "TRAILER" := Int(criteria[1]),
      "DIRECTOR_PROFILE" := Int(criteria[2]),
      "WRITER_PROFILE" := Int(criteria[3]),
      "LETTERBOXD_REVIEWS" := Int(criteria[4]),
      "AVERAGE_SCORE" := AverageCell(criteria),
      "IS_SELECTED" := Bool(isSelected)
    ]
  }

  /** The record has exactly the eight score columns; the criteria sit under their columns in
      order, beside their average and the flag. */
  lemma NewEntryColumns(id: Cell, criteria: seq<int>, isSelected: bool)
    requires |criteria| == 5
    ensures var e := NewEntry(id, criteria, isSelected);
            && e.Keys == set c | c in SCORE_COLUMNS
            && e["PROGRAMME_ID"] == id
            && (forall i :: 0 <= i < 5 ==> e[CRITERION_COLUMNS[i]] == Int(criteria[i]))
            && e["AVERAGE_SCORE"] == AverageCell(criteria)
            && e["IS_SELECTED"] == Bool(isSelected)
  {
    var e := NewEntry(id, criteria, isSelected);
    assert SCORE_COLUMNS == ["PROGRAMME_ID", "SYNOPSIS", "TRAILER", "DIRECTOR_PROFILE",
      "WRITER_PROFILE", "LETTERBOXD_REVIEWS", "AVERAGE_SCORE", "IS_SELECTED"];
  }

  // ---------------------------------------------------------------------------
  // Upsert by programme ID
  // ---------------------------------------------------------------------------

  /** A record's PROGRAMME_ID, NaN when the column is absent. */
  function KeyOf(r: Record): Cell {
    if "PROGRAMME_ID" in r then r["PROGRAMME_ID"] else Missing
  }

  /** `r["PROGRAMME_ID"] == programme_id`; NaN equals nothing. */
  predicate HasId(r: Record, id: Cell) {
    KeyOf(r) != Missing && KeyOf(r) == id
  }

  /** `selection_df[selection_df["PROGRAMME_ID"] != programme_id]`. */
  function Without(rows: seq<Record>, id: Cell): (w: seq<Record>)
    ensures |w| <= |rows|
    ensures forall r :: r in w <==> r in rows && !HasId(r, id)
  {
    if rows == [] then []
    else if HasId(rows[0], id) then Without(rows[1..], id)
    else [rows[0]] + Without(rows[1..], id)
  }

  /** The rows carrying `id`, in order. */
  function WithId(rows: seq<Record>, id: Cell): seq<Record> {
    if rows == [] then []
    else if HasId(rows[0], id) then [rows[0]] + WithId(rows[1..], id)
    else WithId(rows[1..], id)
  }

  /** Drop every row with the ID, then append the new record: the new record comes last, and
      every other row is an old row without the ID. */
  function Upsert(rows: seq<Record>, id: Cell, entry: Record): (u: seq<Record>)
    ensures 1 <= |u| <= |rows| + 1 && u[|u| - 1] == entry
    ensures forall r :: r in u[..|u| - 1] <==> r in rows && !HasId(r, id)
  {
    var w := Without(rows, id);
    assert (w + [entry])[..|w|] == w;
    w + [entry]
  }

  /** Filtering a concatenation filters each part, so the kept rows stay in their order. */
  lemma {:induction false} WithoutSplit(a: seq<Record>, b: seq<Record>, id: Cell)
    ensures Without(a + b, id) == Without(a, id) + Without(b, id)
  {
    if a == [] {
      assert a + b == b;
    } else {
      assert (a + b)[1..] == a[1..] + b;
      WithoutSplit(a[1..], b, id);
    }
  }

  lemma {:induction false} WithIdSplit(a: seq<Record>, b: seq<Record>, id: Cell)
    ensures WithId(a + b, id) == WithId(a, id) + WithId(b, id)
  {
    if a == [] {
      assert a + b == b;
    } else {
      assert (a + b)[1..] == a[1..] + b;
      WithIdSplit(a[1..], b, id);
    }
  }

  /** Removing an ID leaves, for every other ID, its rows in their order. */
  lemma {:induction false} WithIdWithout(rows: seq<Record>, id: Cell, other: Cell)
    ensures WithId(Without(rows, id), id) == []
    ensures other != id ==> WithId(Without(rows, id), other) == WithId(rows, other)
  {
    if rows != [] {
      WithIdWithout(rows[1..], id, other);
      if !HasId(rows[0], id) {
        WithIdSplit([rows[0]], Without(rows[1..], id), id);
        WithIdSplit([rows[0]], Without(rows[1..], id), other);
        assert [rows[0]][1..] == [];
      }
    }
  }

  /** Without(rows, id) is rows when no row carries the ID. */
  lemma {:induction false} WithoutNothing(rows: seq<Record>, id: Cell)
    requires forall i :: 0 <= i < |rows| ==> !HasId(rows[i], id)
    ensures Without(rows, id) == rows
  {
    if rows != [] {
      WithoutNothing(rows[1..], id);
    }
  }

  lemma {:induction false} WithoutTwice(rows: seq<Record>, id: Cell)
    ensures Without(Without(rows, id), id) == Without(rows, id)
  {
    var w := Without(rows, id);
    forall i | 0 <= i < |w| ensures !HasId(w[i], id) {
      assert w[i] in w;
    }
    WithoutNothing(w, id);
  }

  /** After the upsert exactly one row has the ID: the last one, holding the new values. Every
      other ID keeps its rows in their order. */
  /** Every row without the ID stays, once, between the kept rows before it and the kept rows
      after it; a row with the ID is dropped. */
  lemma WithoutKeepsOrder(a: seq<Record>, x: Record, b: seq<Record>, id: Cell)
    ensures Without(a + [x] + b, id) == Without(a, id) + (if HasId(x, id) then [] else [x]) + Without(b, id)
  {
    var kept := Without([x], id);
    assert [x][1..] == [];
    assert Without([], id) == [];
    assert kept == if HasId(x, id) then [] else [x];
    WithoutSplit(a, [x], id);
    WithoutSplit(a + [x], b, id);
    assert Without(a + [x] + b, id) == Without(a, id) + kept + Without(b, id);
  }

  lemma UpsertReplaces(rows: seq<Record>, id: Cell, entry: Record, other: Cell)
    requires HasId(entry, id)
    ensures var u := Upsert(rows, id, entry);
            && WithId(u, id) == [entry] && u[|u| - 1] == entry
            && (other != id ==> WithId(u, other) == WithId(rows, other))
  {
    var w := Without(rows, id);
    WithIdSplit(w, [entry], id);
    WithIdSplit(w, [entry], other);
    WithIdWithout(rows, id, other);
    assert [entry][1..] == [];
    if other != id {
      assert !HasId(entry, other);
    }
  }

  /** A first save of an ID appends the record and leaves the table otherwise as it was. */
  lemma UpsertNewId(rows: seq<Record>, id: Cell, entry: Record)
    requires forall i :: 0 <= i < |rows| ==> !HasId(rows[i], id)
    ensures Upsert(rows, id, entry) == rows + [entry]
  {
    WithoutNothing(rows, id);
  }

  /** Saving twice for one ID leaves what the second save alone leaves; with the same record,
      the second save changes nothing. */
  lemma UpsertTwice(rows: seq<Record>, id: Cell, first: Record, second: Record)
    requires HasId(first, id)
    ensures Upsert(Upsert(rows, id, first), id, second) == Upsert(rows, id, second)
    ensures Upsert(Upsert(rows, id, first), id, first) == Upsert(rows, id, first)
  {
    var w := Without(rows, id);
    WithoutSplit(w, [first], id);
    WithoutTwice(rows, id);
    assert Without([first], id) == [] by {
      assert [first][1..] == [];
    }
    assert w + [] == w;
  }

  /** No two rows share a programme ID. */
  predicate UniqueIds(rows: seq<Record>) {
    forall i, j :: 0 <= i < j < |rows| ==> !HasId(rows[j], KeyOf(rows[i]))
  }

  /** The upsert keeps the table at most one record per programme ID. */
  lemma {:induction false} UpsertKeepsUnique(rows: seq<Record>, id: Cell, entry: Record)
    requires UniqueIds(rows) && HasId(entry, id)
    ensures UniqueIds(Upsert(rows, id, entry))
  {
    WithoutUnique(rows, id);
    var w := Without(rows, id);
    var u := w + [entry];
    forall i, j | 0 <= i < j < |u| ensures !HasId(u[j], KeyOf(u[i])) {
      if j == |u| - 1 {
        assert w[i] in w;
      } else {
        assert u[i] == w[i] && u[j] == w[j];
      }
    }
  }

  lemma {:induction false} WithoutUnique(rows: seq<Record>, id: Cell)
    requires UniqueIds(rows)
    ensures UniqueIds(Without(rows, id))
  {
    if rows != [] {
      assert UniqueIds(rows[1..]) by {
        forall i, j | 0 <= i < j < |rows[1..]| ensures !HasId(rows[1..][j], KeyOf(rows[1..][i])) {
          assert rows[1..][i] == rows[i + 1] && rows[1..][j] == rows[j + 1];
        }
      }
      WithoutUnique(rows[1..], id);
      if !HasId(rows[0], id) {
        var w := Without(rows[1..], id);
        var u := [rows[0]] + w;
        forall i, j | 0 <= i < j < |u| ensures !HasId(u[j], KeyOf(u[i])) {
          if i == 0 {
            assert u[j] in w;
            var k :| 0 <= k < |rows[1..]| && rows[1..][k] == u[j];
            assert rows[k + 1] == u[j];
          } else {
            assert u[i] == w[i - 1] && u[j] == w[j - 1];
          }
        }
      }
    }
  }

  // ---------------------------------------------------------------------------
  // The existing record and the form's defaults
  // ---------------------------------------------------------------------------

  /** The index of the first row with the ID. */
  function FindFirst(rows: seq<Record>, id: Cell): (k: Option<nat>)
    ensures k.Some? ==> k.value < |rows| && HasId(rows[k.value], id)
                        && forall j :: 0 <= j < k.value ==> !HasId(rows[j], id)
    ensures k.None? ==> forall j :: 0 <= j < |rows| ==> !HasId(rows[j], id)
  {
    if rows == [] then None
    else if HasId(rows[0], id) then Some(0)
    else match FindFirst(rows[1..], id)
      case None => None
      case Some(k) => Some(k + 1)
  }

  /** `existing`: the first selection row for the film, if any. */
  function ExistingRecord(rows: seq<Record>, id: Cell): (e: Option<Record>)
    ensures e.None? <==> forall j :: 0 <= j < |rows| ==> !HasId(rows[j], id)
    ensures e.Some? ==> exists k :: 0 <= k < |rows| && rows[k] == e.value && HasId(rows[k], id)
                                    && forall j :: 0 <= j < k ==> !HasId(rows[j], id)
  {
    match FindFirst(rows, id)
    case None => None
    case Some(k) => Some(rows[k])
  }

  /** Python's `bool(x)` of a cell; NaN is true. */
  function Truthy(c: Cell): bool {
    match c
    case Text(s) => s != ""
    case Int(i) => i != 0
    case Real(r) => r != 0.0
    case Bool(b) => b
    case Missing => true
  }

  /** `str(x).strip().upper() == "TRUE"`. `str` of a number or of NaN is never a spelling of
      true, so only text and booleans can give true. */
  function SelectedFlag(c: Cell): bool {
    match c
    case Text(s) => Upper(Strip(s)) == "TRUE"
    case Bool(b) => b
    case _ => false
  }

  /** Any casing of "true", with any whitespace around it, is read as selected. */
  lemma SelectedFlagAccepts(w1: string, t: string, w2: string)
    requires AllSpace(w1) && AllSpace(w2)
    requires Upper(t) == "TRUE"
    ensures SelectedFlag(Text(w1 + t + w2))
  {
    assert |t| == 4 && Upper(t)[0] == 'T' && Upper(t)[3] == 'E';
    StripSurrounded(w1, t, w2);
  }

  /** Only such texts are read as selected. */
  lemma SelectedFlagOnlyTrue(s: string)
    requires SelectedFlag(Text(s))
    ensures exists i, j :: 0 <= i <= j <= |s| && AllSpace(s[..i]) && AllSpace(s[j..]) && Upper(s[i..j]) == "TRUE"
  {
    var i, j := StripSlice(s);
  }

  /** A word with no whitespace at either end is its own stripped text. */
  lemma StripWord(t: string)
    requires t != [] && !IsSpace(t[0]) && !IsSpace(t[|t| - 1])
    ensures Strip(t) == t
  {
    StripSurrounded([], t, []);
    assert [] + t + [] == t;
  }

  /** Every casing of "true" upper-cases to "TRUE". */
  lemma UpperWord(t: string)
    requires t == "TRUE" || t == "True" || t == "true"
    ensures Upper(t) == "TRUE"
  {
    var u := Upper(t);
    assert u[0] == UpperChar(t[0]) == 'T';
    assert u[1] == UpperChar(t[1]) == 'R';
    assert u[2] == UpperChar(t[2]) == 'U';
    assert u[3] == UpperChar(t[3]) == 'E';
  }

  /** A word spelling "true" in any casing is read as selected. */
  lemma {:induction false} SelectedFlagAcceptsWord(t: string)
    requires t == "TRUE" || t == "True" || t == "true"
    ensures SelectedFlag(Text(t))
  {
    UpperWord(t);
    SelectedFlagAccepts([], t, []);
    assert [] + t + [] == t;
  }

  /** A word that is not four characters long is never read as selected. */
  lemma {:induction false} SelectedFlagRejectsWord(t: string)
    requires t != [] && !IsSpace(t[0]) && !IsSpace(t[|t| - 1])
    requires |t| != 4
    ensures !SelectedFlag(Text(t))
  {
    StripWord(t);
  }

  datatype FormState = FormState(criteria: seq<int>, isSelected: bool)

  /** `int(existing[column])`, for a cell holding an int. */
  function CriterionValue(r: Record, column: string): Option<int> {
    if column in r && r[column].Int? then Some(r[column].i) else None
  }

  /** The five criterion defaults of an existing record, in column order. */
  function CriterionDefaults(r: Record): (d: Option<seq<int>>)
    ensures d.Some? ==> |d.value| == 5
    ensures d.Some? <==> forall i :: 0 <= i < 5 ==> CriterionValue(r, CRITERION_COLUMNS[i]).Some?
    ensures d.Some? ==> forall i :: 0 <= i < 5 ==> Some(d.value[i]) == CriterionValue(r, CRITERION_COLUMNS[i])
  {
    if forall i :: 0 <= i < 5 ==> CriterionValue(r, CRITERION_COLUMNS[i]).Some? then
      Some(seq(5, i requires 0 <= i < 5 => CriterionValue(r, CRITERION_COLUMNS[i]).value))
    else None
  }

  /** The checkbox default as written: `bool(existing["IS_SELECTED"])`, false without a record.
      A flag held as text ticks the box whenever the text is not empty. */
  function SelectedDefaultAsWritten(existing: Option<Record>): (d: Option<bool>)
    ensures existing.None? ==> d == Some(false)
    ensures existing.Some? ==> (d.Some? <==> "IS_SELECTED" in existing.value)
    ensures existing.Some? && "IS_SELECTED" in existing.value && existing.value["IS_SELECTED"].Text? ==>
              (d == Some(true) <==> existing.value["IS_SELECTED"].s != "")
  {
    match existing
    case None => Some(false)
    case Some(r) => if "IS_SELECTED" in r then Some(Truthy(r["IS_SELECTED"])) else None
  }

  /** The checkbox default read the way the overview reads the flag, false without a record. */
  function SelectedDefault(existing: Option<Record>): Option<bool> {
    match existing
    case None => Some(false)
    case Some(r) => if "IS_SELECTED" in r then Some(SelectedFlag(r["IS_SELECTED"])) else None
  }

  /** The form's defaults: the existing record's values, or zeros and not selected. None when a
      value cannot be read (the `KeyError` or conversion error the page stops on). */
  function FormDefaults(existing: Option<Record>): Option<FormState> {
    match existing
    case None => Some(FormState([0, 0, 0, 0, 0], false))
    case Some(r) =>
      var criteria := CriterionDefaults(r);
      var selected := SelectedDefault(existing);
      if criteria.Some? && selected.Some? then Some(FormState(criteria.value, selected.value)) else None
  }

  /** The form for a film without a record starts at zeros, not selected; for a film with
      records it shows the values of the first of them, its flag read as the overview reads it. */
  lemma FormDefaultsFromRecord(rows: seq<Record>, id: Cell)
    ensures ExistingRecord(rows, id) == None <==> forall j :: 0 <= j < |rows| ==> !HasId(rows[j], id)
    ensures ExistingRecord(rows, id) == None ==> FormDefaults(None) == Some(FormState([0, 0, 0, 0, 0], false))
    ensures ExistingRecord(rows, id).Some? ==>
              var r := ExistingRecord(rows, id).value;
              && (exists k :: 0 <= k < |rows| && rows[k] == r && HasId(rows[k], id)
                              && forall j :: 0 <= j < k ==> !HasId(rows[j], id))
              && (FormDefaults(Some(r)).Some? ==>
                    && (forall i :: 0 <= i < 5 ==>
                          CRITERION_COLUMNS[i] in r && r[CRITERION_COLUMNS[i]] == Int(FormDefaults(Some(r)).value.criteria[i]))
                    && "IS_SELECTED" in r
                    && FormDefaults(Some(r)).value.isSelected == SelectedFlag(r["IS_SELECTED"]))
  {
    if ExistingRecord(rows, id).Some? {
      var r := ExistingRecord(rows, id).value;
      if FormDefaults(Some(r)).Some? {
        assert CriterionDefaults(r).Some? && SelectedDefault(Some(r)).Some?;
      }
    }
  }

  /** After an upsert the record found for the ID is the one just saved. */
  lemma UpsertThenFind(rows: seq<Record>, id: Cell, entry: Record)
    requires HasId(entry, id)
    ensures ExistingRecord(Upsert(rows, id, entry), id) == Some(entry)
  {
    var w := Without(rows, id);
    var saved := w + [entry];
    assert saved[|w|] == entry;
    forall j | 0 <= j < |w| ensures !HasId(saved[j], id) {
      assert saved[j] == w[j] && w[j] in w;
    }
    assert FindFirst(saved, id) == Some(|w|);
  }

  /** The form opened on a saved record shows the values it was saved with. */
  lemma FormDefaultsOfNewEntry(id: Cell, criteria: seq<int>, isSelected: bool)
    requires |criteria| == 5
    ensures FormDefaults(Some(NewEntry(id, criteria, isSelected))) == Some(FormState(criteria, isSelected))
  {
    var e := NewEntry(id, criteria, isSelected);
    NewEntryColumns(id, criteria, isSelected);
    assert "IS_SELECTED" in e && e["IS_SELECTED"] == Bool(isSelected);
    assert SelectedDefault(Some(e)) == Some(isSelected);
    FormDefaultsOfColumns(e, criteria, isSelected);
  }

  /** A record holding the five criteria as ints, and a flag that reads as `isSelected`, opens
      the form on those values. */
  lemma FormDefaultsOfColumns(e: Record, criteria: seq<int>, isSelected: bool)
    requires |criteria| == 5
    requires forall i :: 0 <= i < 5 ==> CRITERION_COLUMNS[i] in e && e[CRITERION_COLUMNS[i]] == Int(criteria[i])
    requires SelectedDefault(Some(e)) == Some(isSelected)
    ensures FormDefaults(Some(e)) == Some(FormState(criteria, isSelected))
  {
    forall i | 0 <= i < 5 ensures CriterionValue(e, CRITERION_COLUMNS[i]) == Some(criteria[i]) {
    }
    var d := CriterionDefaults(e);
    assert d.Some?;
    assert forall i :: 0 <= i < 5 ==> d.value[i] == criteria[i];
    assert d.value == criteria;
  }

  /** The upserted table, looked up again for the film, opens the form on the saved values. */
  lemma SaveThenReload(rows: seq<Record>, id: Cell, criteria: seq<int>, isSelected: bool)
    requires id != Missing && |criteria| == 5
    ensures var saved := Upsert(rows, id, NewEntry(id, criteria, isSelected));
            FormDefaults(ExistingRecord(saved, id)) == Some(FormState(criteria, isSelected))
  {
    UpsertThenFind(rows, id, NewEntry(id, criteria, isSelected));
    FormDefaultsOfNewEntry(id, criteria, isSelected);
  }

  /** What the sheet hands back for a saved `False`: the text of the boolean, or the
      spreadsheet's own spelling. */
  lemma FalseTexts(realText: real -> string)
    ensures CellText(Bool(false), realText) == "False"
    ensures Truthy(Text("False")) && !SelectedFlag(Text("False"))
    ensures Truthy(Text("FALSE")) && !SelectedFlag(Text("FALSE"))
  {
    SelectedFlagRejectsWord("False");
    SelectedFlagRejectsWord("FALSE");
  }

  /** A saved `False` read back as text shows the box ticked as written, and unticked when the
      flag is read as the overview reads it. */
  lemma IsSelectedDefaultAsWrittenMisreadsFalse(r: Record, realText: real -> string)
    requires "IS_SELECTED" in r
    requires r["IS_SELECTED"] == Text(CellText(Bool(false), realText)) || r["IS_SELECTED"] == Text("FALSE")
    ensures SelectedDefaultAsWritten(Some(r)) == Some(true)
    ensures SelectedDefault(Some(r)) == Some(false)
  {
    FalseTexts(realText);
    var c := r["IS_SELECTED"];
    assert c == Text("False") || c == Text("FALSE");
    assert Truthy(c) && !SelectedFlag(c);
  }

  /** The text of a saved flag reads back as the flag. */
  lemma SavedFlagText(b: bool, realText: real -> string)
    ensures SelectedFlag(Text(CellText(Bool(b), realText))) == b
  {
    if b {
      SelectedFlagAcceptsWord("True");
    } else {
      SelectedFlagRejectsWord("False");
    }
  }

  /** A saved flag, written as text and read back, gives back the saved value. */
  lemma SelectedDefaultRoundTrip(r: Record, b: bool, realText: real -> string)
    requires "IS_SELECTED" in r
    requires r["IS_SELECTED"] == Text(CellText(Bool(b), realText))
    ensures SelectedDefault(Some(r)) == Some(b)
  {
    SavedFlagText(b, realText);
  }

  /** A record as the selection sheet hands it back, with the criteria as ints and the flag
      as the text it was written as, opens the form on the saved values; the form as written
      would tick the box for a saved `False`. */
  lemma ReopenFromSheet(r: Record, criteria: seq<int>, isSelected: bool, realText: real -> string)
    requires |criteria| == 5
    requires forall i :: 0 <= i < 5 ==> CRITERION_COLUMNS[i] in r && r[CRITERION_COLUMNS[i]] == Int(criteria[i])
    requires "IS_SELECTED" in r && r["IS_SELECTED"] == Text(CellText(Bool(isSelected), realText))
    ensures FormDefaults(Some(r)) == Some(FormState(criteria, isSelected))
    ensures SelectedDefaultAsWritten(Some(r)) == Some(true)
  {
    SelectedDefaultRoundTrip(r, isSelected, realText);
    FormDefaultsOfColumns(r, criteria, isSelected);
  }

  /** The average shown beside an existing record: the average of its five criteria, read as
      ints. None when a criterion cannot be read. */
  function ShownAverage(r: Record): Option<real> {
    match CriterionDefaults(r)
    case None => None
    case Some(c) => Some(AverageScore(c))
  }

  /** For a record as the sheet hands it back, with int criteria, the average shown beside it is
      the average of those criteria: 0 when none is rated and between 1 and 5 otherwise, and the
      same value the form computes when it opens on the record. */
  lemma ShownAverageOfRecord(r: Record, criteria: seq<int>)
    requires |criteria| == 5
    requires forall i :: 0 <= i < 5 ==> CRITERION_COLUMNS[i] in r && r[CRITERION_COLUMNS[i]] == Int(criteria[i])
    requires forall i :: 0 <= i < 5 ==> 0 <= criteria[i] <= 5
    ensures ShownAverage(r) == Some(AverageScore(criteria))
    ensures ShownAverage(r).value == 0.0 || 1.0 <= ShownAverage(r).value <= 5.0
    ensures FormDefaults(Some(r)).Some? ==> AverageScore(FormDefaults(Some(r)).value.criteria) == ShownAverage(r).value
  {
    forall i | 0 <= i < 5 ensures CriterionValue(r, CRITERION_COLUMNS[i]) == Some(criteria[i]) {
    }
    var d := CriterionDefaults(r);
    assert forall i :: 0 <= i < 5 ==> d.value[i] == criteria[i];
    assert d.value == criteria;
    AverageBounds(criteria);
  }

  // ---------------------------------------------------------------------------
  // Writing the table back
  // ---------------------------------------------------------------------------

  /** `pd.concat` of the loaded table with the new record keeps the loaded columns and adds the
      score columns it lacks; a table loaded from no rows has no columns. */
  function FrameColumns(loadedColumns: seq<string>, loaded: seq<Record>): seq<string> {
    if loaded == [] then SCORE_COLUMNS
    else loadedColumns + MissingColumns(loadedColumns, SCORE_COLUMNS)
  }

  /** The columns of `wanted` that `have` lacks, in order. */
  function MissingColumns(have: seq<string>, wanted: seq<string>): (m: seq<string>)
    ensures forall c :: c in m <==> c in wanted && c !in have
  {
    if wanted == [] then []
    else if wanted[0] in have then MissingColumns(have, wanted[1..])
    else [wanted[0]] + MissingColumns(have, wanted[1..])
  }

  /** The records as DataFrame rows under the given columns; an absent value is NaN. */
  function FrameRows(columns: seq<string>, records: seq<Record>): seq<Row> {
    seq(|records|, i requires 0 <= i < |records| =>
      seq(|columns|, j requires 0 <= j < |columns| =>
        if columns[j] in records[i] then records[i][columns[j]] else Missing))
  }

  /** The columns of a table loaded from the sheet: every record has exactly the header's
      columns, which are distinct. */
  predicate LoadedUnder(loadedColumns: seq<string>, loaded: seq<Record>) {
    && (forall i, j :: 0 <= i < j < |loadedColumns| ==> loadedColumns[i] != loadedColumns[j])
    && (forall r :: r in loaded ==> r.Keys == set c | c in loadedColumns)
  }

  /** A column of a record in the upserted table is a column of the frame. */
  lemma SavedColumnFramed(loadedColumns: seq<string>, loaded: seq<Record>, id: Cell, entry: Record,
                          r: Record, c: string)
    requires LoadedUnder(loadedColumns, loaded)
    requires entry.Keys == set k | k in SCORE_COLUMNS
    requires r in Upsert(loaded, id, entry) && c in r
    ensures c in FrameColumns(loadedColumns, loaded)
  {
    var u := Upsert(loaded, id, entry);
    assert u == u[..|u| - 1] + [entry];
    if r == entry {
      assert c in SCORE_COLUMNS;
    } else {
      assert r in u[..|u| - 1];
      assert c in loadedColumns;
    }
  }

  /** A record's value under a column of the frame sits in the frame's row for it. */
  lemma FramedCell(columns: seq<string>, records: seq<Record>, i: nat, c: string)
    requires i < |records| && c in columns && c in records[i]
    ensures exists j :: 0 <= j < |columns| && columns[j] == c && FrameRows(columns, records)[i][j] == records[i][c]
  {
    var j :| 0 <= j < |columns| && columns[j] == c;
    assert FrameRows(columns, records)[i][j] == records[i][c];
  }

  /** No value of the saved table is lost when it is framed: for a saved record with the score
      columns (`NewEntryColumns`), every column of every record is a column of the frame, and
      the frame holds the record's value there. */
  lemma FrameKeepsSavedValues(loadedColumns: seq<string>, loaded: seq<Record>, id: Cell, entry: Record)
    requires LoadedUnder(loadedColumns, loaded)
    requires entry.Keys == set k | k in SCORE_COLUMNS
    ensures var saved := Upsert(loaded, id, entry);
            var columns := FrameColumns(loadedColumns, loaded);
            var frame := FrameRows(columns, saved);
            forall i, c :: 0 <= i < |saved| && c in saved[i] ==>
              exists j :: 0 <= j < |columns| && columns[j] == c && frame[i][j] == saved[i][c]
  {
    var saved := Upsert(loaded, id, entry);
    var columns := FrameColumns(loadedColumns, loaded);
    forall i, c | 0 <= i < |saved| && c in saved[i]
      ensures exists j :: 0 <= j < |columns| && columns[j] == c && FrameRows(columns, saved)[i][j] == saved[i][c]
    {
      SavedColumnFramed(loadedColumns, loaded, id, entry, saved[i], c);
      FramedCell(columns, saved, i, c);
    }
  }

  /** Saving a score: upsert the record, then rewrite the selection sheet with the result. */
  method SaveScore(pm: ProgrammeManager, loadedColumns: seq<string>, loaded: seq<Record>,
                   id: Cell, criteria: seq<int>, isSelected: bool, realText: real -> string)
    returns (saved: seq<Record>)
    requires pm.Valid() && |criteria| == 5
    requires LoadedUnder(loadedColumns, loaded)
    modifies pm.films, pm.talks, pm.selection
    ensures pm.Valid()
    ensures saved == Upsert(loaded, id, NewEntry(id, criteria, isSelected))
    ensures pm.selection.header == old(pm.selection.header)
    ensures pm.selection.rows
         == Replaced(old(pm.selection.rows), FrameRows(FrameColumns(loadedColumns, loaded), saved), realText)
    ensures unchanged(pm.films, pm.talks)
  {
    var entry := NewEntry(id, criteria, isSelected);
    saved := loaded;
    if saved != [] {
      saved := Without(saved, id);
    }
    saved := saved + [entry];
    assert saved == Upsert(loaded, id, entry);
    var frame := FrameRows(FrameColumns(loadedColumns, loaded), saved);
    assert pm.SheetNamed(pm.selection.title) == Some(pm.selection);
    var found := pm.ReplaceSheetData(pm.selection.title, frame, realText);
  }
}

/** The programme registry: serial numbers within a category, programme identifiers, the rows
    appended for a new film or talk, and the clear-then-append rewrite of a whole sheet. */
module ProgrammeRegistry {
  import opened Wrappers
  import opened Text
  import opened Sheets

  /** The one category whose entries go to the talks sheet and have the talk layout. */
  const TALKS_CATEGORY: Cell := Text("Talks & Conversations")

  /** The code of a category that has none in the category table. */
  const FALLBACK_CODE: string := "X"

  /** The keys a talk entry reads from the submitted data, in row order after the first three cells. */
  const TALK_KEYS: seq<string> := ["topic", "duration", "image_url"]

  /** The keys a film entry reads from the submitted data, in row order after the first three cells. */
  const FILM_KEYS: seq<string> := ["international_title", "original_title", "year", "runtime",
    "language", "country", "director", "synopsis", "image_url", "letterboxd_url"]

  // ---------------------------------------------------------------------------
  // Serial numbers
  // ---------------------------------------------------------------------------

  /** `row.get("CATEGORY") == category`. */
  predicate InCategory(r: Record, category: Cell) {
    "CATEGORY" in r && r["CATEGORY"] == category
  }

  function CountCategory(records: seq<Record>, category: Cell): (n: nat)
    ensures n <= |records|
  {
    if records == [] then 0
    else (if InCategory(records[0], category) then 1 else 0) + CountCategory(records[1..], category)
  }

  /** `generate_sl_no`: one more than the number of rows already in the category. */
  function SerialNumber(records: seq<Record>, category: Cell): (n: nat)
    ensures 1 <= n <= |records| + 1
  {
    CountCategory(records, category) + 1
  }

  lemma {:induction false} CountCategorySplit(a: seq<Record>, b: seq<Record>, category: Cell)
    ensures CountCategory(a + b, category) == CountCategory(a, category) + CountCategory(b, category)
  {
    if a != [] {
      assert (a + b)[1..] == a[1..] + b;
      CountCategorySplit(a[1..], b, category);
    } else {
      assert a + b == b;
    }
  }

  lemma {:induction false} CountCategoryNone(b: seq<Record>, category: Cell)
    requires forall i :: 0 <= i < |b| ==> !InCategory(b[i], category)
    ensures CountCategory(b, category) == 0
  {
    if b != [] {
      CountCategoryNone(b[1..], category);
    }
  }

  lemma {:induction false} CountCategoryAll(b: seq<Record>, category: Cell)
    requires forall i :: 0 <= i < |b| ==> InCategory(b[i], category)
    ensures CountCategory(b, category) == |b|
  {
    if b != [] {
      CountCategoryAll(b[1..], category);
    }
  }

  /** Rows of other categories, wherever they stand, do not change the serial number. */
  lemma SerialNumberIgnoresOtherCategories(a: seq<Record>, b: seq<Record>, category: Cell)
    requires forall i :: 0 <= i < |b| ==> !InCategory(b[i], category)
    ensures SerialNumber(a + b, category) == SerialNumber(a, category)
    ensures SerialNumber(b + a, category) == SerialNumber(a, category)
  {
    CountCategorySplit(a, b, category);
    CountCategorySplit(b, a, category);
    CountCategoryNone(b, category);
  }

  /** Taking the row at `j` out of `b` lowers the count by that row's share. */
  lemma CountCategoryRemove(b: seq<Record>, j: nat, category: Cell)
    requires j < |b|
    ensures CountCategory(b, category)
         == CountCategory(b[..j] + b[j + 1..], category) + (if InCategory(b[j], category) then 1 else 0)
  {
    assert b == b[..j] + ([b[j]] + b[j + 1..]);
    CountCategorySplit(b[..j], [b[j]] + b[j + 1..], category);
    CountCategorySplit([b[j]], b[j + 1..], category);
    CountCategorySplit(b[..j], b[j + 1..], category);
    assert ([b[j]] + b[j + 1..])[1..] == b[j + 1..];
    assert CountCategory([b[j]], category) == if InCategory(b[j], category) then 1 else 0 by {
      assert [b[j]][1..] == [];
    }
  }

  lemma MultisetRemove(b: seq<Record>, j: nat)
    requires j < |b|
    ensures multiset(b[..j] + b[j + 1..]) == multiset(b) - multiset{b[j]}
  {
    assert b == b[..j] + [b[j]] + b[j + 1..];
  }

  /** Matching the first row of `a` with row `j` of `b` leaves two permutations of each other. */
  lemma PermutationRest(a: seq<Record>, b: seq<Record>, j: nat)
    requires a != [] && j < |b| && b[j] == a[0]
    requires multiset(a) == multiset(b)
    ensures multiset(a[1..]) == multiset(b[..j] + b[j + 1..])
  {
    MultisetRemove(b, j);
    assert a == [a[0]] + a[1..];
    assert multiset(a) == multiset{a[0]} + multiset(a[1..]);
  }

  /** The order of the rows does not change the serial number. */
  lemma {:induction false} SerialNumberPermutation(a: seq<Record>, b: seq<Record>, category: Cell)
    requires multiset(a) == multiset(b)
    ensures SerialNumber(a, category) == SerialNumber(b, category)
    decreases |a|
  {
    if a == [] {
      assert b == [] by {
        assert |multiset(b)| == 0;
      }
    } else {
      assert a[0] in b by {
        assert a[0] in multiset(a);
      }
      var j :| 0 <= j < |b| && b[j] == a[0];
      PermutationRest(a, b, j);
      SerialNumberPermutation(a[1..], b[..j] + b[j + 1..], category);
      CountCategoryRemove(b, j, category);
    }
  }

  /** N rows in the category and any number in other categories, in any order, give N + 1. */
  lemma SerialNumberOfMix(inCategory: seq<Record>, others: seq<Record>, rows: seq<Record>, category: Cell)
    requires forall i :: 0 <= i < |inCategory| ==> InCategory(inCategory[i], category)
    requires forall i :: 0 <= i < |others| ==> !InCategory(others[i], category)
    requires multiset(rows) == multiset(inCategory + others)
    ensures SerialNumber(rows, category) == |inCategory| + 1
  {
    SerialNumberPermutation(rows, inCategory + others, category);
    SerialNumberIgnoresOtherCategories(inCategory, others, category);
    CountCategoryAll(inCategory, category);
  }

  /** Appending a row of the category to a sheet whose only CATEGORY column is the first one
      raises the next serial number by one. */
  lemma SerialNumberAfterAppend(header: seq<string>, rows: seq<Row>, row: Row, category: Cell)
    requires |header| > 0 && header[0] == "CATEGORY"
    requires forall j :: 0 < j < |header| ==> header[j] != "CATEGORY"
    requires |row| > 0 && row[0] == category
    ensures SerialNumber(RecordsOf(header, rows + [row]), category)
         == SerialNumber(RecordsOf(header, rows), category) + 1
  {
    var before := RecordsOf(header, rows);
    var last := RecordOf(header, row);
    assert RecordsOf(header, rows + [row]) == before + [last];
    RecordOfColumn(header, row, 0);
    CountCategorySplit(before, [last], category);
    assert CountCategory([last], category) == 1 by {
      assert [last][1..] == [];
    }
  }

  // ---------------------------------------------------------------------------
  // Programme identifiers
  // ---------------------------------------------------------------------------

  /** `CATEGORY_CODES.get(category, "X")`. */
  function CategoryCode(codes: map<string, string>, category: Cell): string {
    if category.Text? && category.s in codes then codes[category.s] else FALLBACK_CODE
  }

  /** `generate_programme_id`: the category code followed by `str(sl_no).zfill(3)`. */
  function ProgrammeId(codes: map<string, string>, category: Cell, slNo: int): string {
    CategoryCode(codes, category) + ZFill(IntText(slNo), 3)
  }

  /** For a serial number that is not negative, the identifier is the category code followed by
      at least three decimal digits that read back as the serial number: zero-padded, never
      truncated. */
  lemma ProgrammeIdShape(codes: map<string, string>, category: Cell, slNo: nat)
    ensures var code := CategoryCode(codes, category);
            var id := ProgrammeId(codes, category, slNo);
            var digits := id[|code|..];
            && |code| <= |id| && id[..|code|] == code
            && code == (if category.Text? && category.s in codes then codes[category.s] else "X")
            && |digits| == (if |Digits(slNo)| >= 3 then |Digits(slNo)| else 3)
            && AllDigits(digits) && DigitsValue(digits) == slNo
  {
    var code := CategoryCode(codes, category);
    var d := Digits(slNo);
    var padded := ZFill(d, 3);
    assert ProgrammeId(codes, category, slNo) == code + padded;
    assert (code + padded)[|code|..] == padded;
    assert (code + padded)[..|code|] == code;
    DigitsValueOfDigits(slNo);
    if |d| < 3 {
      assert padded == Zeros(3 - |d|) + d;
      LeadingZerosValue(3 - |d|, d);
    }
  }

  /** Within one category, distinct serial numbers give distinct identifiers. */
  lemma ProgrammeIdInjective(codes: map<string, string>, category: Cell, a: nat, b: nat)
    requires ProgrammeId(codes, category, a) == ProgrammeId(codes, category, b)
    ensures a == b
  {
    ProgrammeIdShape(codes, category, a);
    ProgrammeIdShape(codes, category, b);
  }

  /** Short serial numbers are padded to three digits; an unknown category takes the code X. */
  lemma ProgrammeIdPadded()
    ensures ProgrammeId(map["Feature Film" := "F"], Text("Feature Film"), 7) == "F007"
    ensures ProgrammeId(map["Feature Film" := "F"], Text("Retrospective"), 1) == "X001"
  {
    assert Digits(7) == "7";
    assert Digits(1) == "1";
  }

  /** Longer serial numbers are kept whole, and a negative one keeps its sign in front. */
  lemma ProgrammeIdUnpadded()
    ensures ProgrammeId(map["Feature Film" := "F"], Text("Feature Film"), 1234) == "F1234"
    ensures ProgrammeId(map["Feature Film" := "F"], Text("Feature Film"), -5) == "F-05"
  {
    assert Digits(5) == "5";
    assert Digits(1) == "1";
    assert Digits(12) == "12";
    assert Digits(123) == "123";
    assert Digits(1234) == "1234";
  }

  // ---------------------------------------------------------------------------
  // The row of a new entry
  // ---------------------------------------------------------------------------

  datatype EntryError = MissingKey(key: string)

  /** The keys the row of an entry in this category reads from the submitted data. */
  function EntryKeys(category: Cell): seq<string> {
    if category == TALKS_CATEGORY then TALK_KEYS else FILM_KEYS
  }

  /** The first of `keys` that `data` lacks: the `KeyError` building the row raises. */
  function FirstMissingKey(keys: seq<string>, data: map<string, Cell>): (m: Option<string>)
    ensures m.None? <==> forall i :: 0 <= i < |keys| ==> keys[i] in data
    ensures m.Some? ==> exists i :: 0 <= i < |keys| && keys[i] == m.value
                          && m.value !in data && forall j :: 0 <= j < i ==> keys[j] in data
  {
    if keys == [] then None
    else if keys[0] !in data then Some(keys[0])
    else
      var m := FirstMissingKey(keys[1..], data);
      if m.Some? then
        var i :| 0 <= i < |keys[1..]| && keys[1..][i] == m.value
                 && m.value !in data && forall j :: 0 <= j < i ==> keys[1..][j] in data;
        assert keys[i + 1] == m.value;
        m
      else m
  }

  /** The row `add_programme_entry` appends: category, serial, identifier, then the data's
      values under the category's keys. */
  function EntryRow(category: Cell, slNo: int, id: string, data: map<string, Cell>): Row
    requires forall i :: 0 <= i < |EntryKeys(category)| ==> EntryKeys(category)[i] in data
  {
    var keys := EntryKeys(category);
    [category, Int(slNo), Text(id)] + seq(|keys|, i requires 0 <= i < |keys| => data[keys[i]])
  }

  /** The talk layout: 6 cells, category, serial number, identifier, topic, duration, image URL. */
  lemma TalkRowLayout(slNo: int, id: string, data: map<string, Cell>)
    requires FirstMissingKey(TALK_KEYS, data) == None
    ensures var row := EntryRow(TALKS_CATEGORY, slNo, id, data);
            && |row| == 6
            && row[0] == TALKS_CATEGORY && row[1] == Int(slNo) && row[2] == Text(id)
            && "topic" in data && row[3] == data["topic"]
            && "duration" in data && row[4] == data["duration"]
            && "image_url" in data && row[5] == data["image_url"]
  {
    var k := TALK_KEYS;
    assert k[0] in data && k[1] in data && k[2] in data;
  }

  /** The film layout: 13 cells, category, serial number, identifier, then the two titles, year,
      running time, language, country, director, synopsis, image URL and review link. */
  lemma FilmRowLayout(category: Cell, slNo: int, id: string, data: map<string, Cell>)
    requires category != TALKS_CATEGORY
    requires FirstMissingKey(FILM_KEYS, data) == None
    ensures var row := EntryRow(category, slNo, id, data);
            && |row| == 13
            && row[0] == category && row[1] == Int(slNo) && row[2] == Text(id)
            && "international_title" in data && row[3] == data["international_title"]
            && "original_title" in data && row[4] == data["original_title"]
            && "year" in data && row[5] == data["year"]
            && "runtime" in data && row[6] == data["runtime"]
            && "language" in data && row[7] == data["language"]
            && "country" in data && row[8] == data["country"]
            && "director" in data && row[9] == data["director"]
            && "synopsis" in data && row[10] == data["synopsis"]
            && "image_url" in data && row[11] == data["image_url"]
            && "letterboxd_url" in data && row[12] == data["letterboxd_url"]
  {
    var k := FILM_KEYS;
    assert k[0] in data && k[1] in data && k[2] in data && k[3] in data && k[4] in data;
    assert k[5] in data && k[6] in data && k[7] in data && k[8] in data && k[9] in data;
  }

  // ---------------------------------------------------------------------------
  // Rewriting a sheet
  // ---------------------------------------------------------------------------

  /** `str(x)` of one DataFrame cell after `fillna("")`: a missing cell becomes the empty
      string. `realText` is Python's rendering of a float. */
  function CellText(c: Cell, realText: real -> string): string {
    match c
    case Text(s) => s
    case Int(i) => IntText(i)
    case Real(r) => realText(r)
    case Bool(b) => if b then "True" else "False"
    case Missing => ""
  }

  /** `df.astype(str).fillna("").values.tolist()`: the same rows of the same widths, every
      cell replaced by its text. */
  function TextRows(frame: seq<Row>, realText: real -> string): (t: seq<Row>)
    ensures |t| == |frame|
    ensures forall i :: 0 <= i < |t| ==> |t[i]| == |frame[i]|
    ensures forall i, j :: 0 <= i < |t| && 0 <= j < |t[i]| ==> t[i][j] == Text(CellText(frame[i][j], realText))
  {
    seq(|frame|, i requires 0 <= i < |frame| =>
      seq(|frame[i]|, j requires 0 <= j < |frame[i]| => Text(CellText(frame[i][j], realText))))
  }

  /** The grid below the header after `replace_sheet_data`: the range A2:Z1000 cleared, then
      the stringified rows appended after whatever data is left. */
  function Replaced(grid: seq<Row>, frame: seq<Row>, realText: real -> string): (r: seq<Row>)
    ensures Trim(r) == r
    ensures |r| <= |grid| + |frame|
  {
    var t := Trim(Trim(ClearRange(grid)) + TextRows(frame, realText));
    TrimKeeps(t);
    t
  }

  /** Some cell of the row stringifies to a non-empty text. */
  predicate HasText(row: Row, realText: real -> string) {
    exists j :: 0 <= j < |row| && CellText(row[j], realText) != ""
  }

  /** When the old data lies inside the cleared range, the data rows afterwards are the given
      rows stringified, up to the last one holding some text. */
  lemma ReplacedWithinRange(grid: seq<Row>, frame: seq<Row>, realText: real -> string)
    requires WithinClearedRange(grid)
    ensures Replaced(grid, frame, realText) == Trim(TextRows(frame, realText))
  {
    ClearRangeEmpties(grid);
    var t := TextRows(frame, realText);
    assert [] + t == t;
  }

  /** Stringified rows whose last row holds some text are all data. */
  lemma TextRowsKept(frame: seq<Row>, realText: real -> string)
    requires frame == [] || HasText(frame[|frame| - 1], realText)
    ensures Trim(TextRows(frame, realText)) == TextRows(frame, realText)
  {
    var t := TextRows(frame, realText);
    if frame != [] {
      var j :| 0 <= j < |frame[|frame| - 1]| && CellText(frame[|frame| - 1][j], realText) != "";
      assert t[|t| - 1][j] != BLANK;
    }
    TrimKeeps(t);
  }

  /** So, with the old data inside the range and a last row holding some text, the sheet ends
      up with exactly the given rows, each cell replaced by its text, in order. */
  lemma ReplacedRowsWithinRange(grid: seq<Row>, frame: seq<Row>, realText: real -> string)
    requires WithinClearedRange(grid)
    requires frame == [] || HasText(frame[|frame| - 1], realText)
    ensures Replaced(grid, frame, realText) == TextRows(frame, realText)
  {
    ReplacedWithinRange(grid, frame, realText);
    TextRowsKept(frame, realText);
  }

  /** Replacing with no rows empties a sheet whose data lies in the range, and doing it again
      changes nothing, also for a sheet reaching beyond the range. */
  lemma ReplaceWithNothing(grid: seq<Row>, realText: real -> string)
    ensures WithinClearedRange(grid) ==> Replaced(grid, [], realText) == []
    ensures Replaced(Replaced(grid, [], realText), [], realText) == Replaced(grid, [], realText)
  {
    var t := Trim(ClearRange(grid));
    assert TextRows([], realText) == [];
    assert t + [] == t;
    TrimKeeps(t);
    assert Replaced(grid, [], realText) == t;
    if WithinClearedRange(grid) {
      ClearRangeEmpties(grid);
    }
    ClearRangeIdempotent(grid);
    var u := Trim(ClearRange(t));
    assert u + [] == u;
    TrimKeeps(u);
  }

  /** The bound of the cleared range: a 1000th data row survives the rewrite. */
  lemma ReplaceKeepsRowsBeyondRange(cell: Cell, frame: seq<Row>, realText: real -> string)
    requires cell != BLANK
    ensures var grid := seq(CLEARED_ROWS + 1, _ => [cell]);
            var r := Replaced(grid, frame, realText);
            |r| > CLEARED_ROWS && r[CLEARED_ROWS] == [cell]
  {
    var grid := seq(CLEARED_ROWS + 1, _ => [cell]);
    var c := ClearRange(grid);
    assert c[CLEARED_ROWS] == [cell];
    assert c[|c| - 1][0] == cell;
    TrimKeeps(c);
    var all := c + TextRows(frame, realText);
    assert all[CLEARED_ROWS] == [cell];
  }

  // ---------------------------------------------------------------------------
  // The manager over the workbook's sheets
  // ---------------------------------------------------------------------------

  class ProgrammeManager {
    /** `CATEGORY_CODES`, loaded once and never changed. */
    const categoryCodes: map<string, string>
    const films: Worksheet
    const talks: Worksheet
    const selection: Worksheet

    predicate Valid()
      reads films, talks, selection
    {
      && films != talks && films != selection && talks != selection
      && films.title != talks.title && films.title != selection.title
      && talks.title != selection.title
      && films.Valid() && talks.Valid() && selection.Valid()
    }

    constructor (codes: map<string, string>, films: Worksheet, talks: Worksheet, selection: Worksheet)
      requires films != talks && films != selection && talks != selection
      requires films.title != talks.title && films.title != selection.title
      requires talks.title != selection.title
      requires films.Valid() && talks.Valid() && selection.Valid()
      ensures Valid()
      ensures categoryCodes == codes && this.films == films && this.talks == talks
      ensures this.selection == selection
    {
      categoryCodes := codes;
      this.films := films;
      this.talks := talks;
      this.selection := selection;
    }

    /** `get_sheet(name)`. */
    function SheetNamed(name: string): Option<Worksheet> {
      if name == films.title then Some(films)
      else if name == talks.title then Some(talks)
      else if name == selection.title then Some(selection)
      else None
    }

    /** The sheet an entry of this category goes to. */
    function TargetSheet(category: Cell): Worksheet {
      if category == TALKS_CATEGORY then talks else films
    }

    /** `add_programme_entry(data)`. */
    method AddProgrammeEntry(data: map<string, Cell>) returns (r: Result<string, EntryError>)
      requires Valid()
      modifies films, talks
      ensures Valid()
      ensures "category" !in data ==> r == Failure(MissingKey("category")) && unchanged(films, talks)
      ensures "category" in data ==>
        var category := data["category"];
        var sheet := TargetSheet(category);
        var slNo := SerialNumber(old(sheet.Records()), category);
        var id := ProgrammeId(categoryCodes, category, slNo);
        && unchanged(if sheet == talks then films else talks)
        && sheet.header == old(sheet.header)
        && match FirstMissingKey(EntryKeys(category), data)
           case Some(k) => r == Failure(MissingKey(k)) && sheet.rows == old(sheet.rows)
           case None => r == Success(id) && sheet.rows == old(sheet.rows) + [EntryRow(category, slNo, id, data)]
    {
      if "category" !in data {
        return Failure(MissingKey("category"));
      }
      var category := data["category"];
      var sheet := TargetSheet(category);
      var slNo := SerialNumber(sheet.Records(), category);
      var id := ProgrammeId(categoryCodes, category, slNo);
      var missing := FirstMissingKey(EntryKeys(category), data);
      if missing.Some? {
        return Failure(MissingKey(missing.value));
      }
      var row := EntryRow(category, slNo, id, data);
      assert row[1] == Int(slNo);
      sheet.AppendRow(row);
      r := Success(id);
    }

    /** `replace_sheet_data(sheet_name, df)`, with the DataFrame given as its rows of cells. */
    method ReplaceSheetData(name: string, frame: seq<Row>, realText: real -> string) returns (found: bool)
      requires Valid()
      modifies films, talks, selection
      ensures Valid()
      ensures found == SheetNamed(name).Some?
      ensures !found ==> unchanged(films, talks, selection)
      ensures found ==>
        var sheet := SheetNamed(name).value;
        && sheet.header == old(sheet.header)
        && sheet.rows == Replaced(old(sheet.rows), frame, realText)
        && (sheet != films ==> unchanged(films))
        && (sheet != talks ==> unchanged(talks))
        && (sheet != selection ==> unchanged(selection))
    {
      var s := SheetNamed(name);
      if s.None? {
        return false;
      }
      var sheet := s.value;
      sheet.BatchClear();
      if frame == [] {
        assert sheet.rows + [] == sheet.rows;
        TrimKeeps(sheet.rows);
        return true;
      }
      sheet.AppendRows(TextRows(frame, realText));
      return true;
    }
  }
}

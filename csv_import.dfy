/** The CSV part importer: each row of the parsed file becomes one part,
    upserted on `siyam_ref`, or one "Row N: ..." error; the run never stops
    early and ends with a report of both counts. */
module CsvImport {

  import opened Wrappers
  import Strings
  import opened PartModel
  import opened PartStore
  import Sequences

  /** One row as the CSV parser delivers it: header/value pairs in the
      order `Object.keys` lists them. The model admits a repeated header,
      which a row object cannot hold; on rows whose headers are distinct
      the two agree. */
  type Row = seq<(string, string)>

  const CSV_FILE_PATH := "/Users/tristantsvetanov/Desktop/siyam-display/csv/siyam touch screen items - flattend.csv"

  /** Columns promoted to first-class fields, never copied into `details`. */
  const EXCLUDE_KEYS: seq<string> := ["siyam_ref", "type", "make", "application", "oems", "category"]

  const OEM_SEPARATOR := " / "

  /** `Object.keys(item)` */
  function Keys(row: Row): (ks: seq<string>)
    ensures |ks| == |row| && forall i :: 0 <= i < |row| ==> ks[i] == row[i].0
  {
    seq(|row|, i requires 0 <= i < |row| => row[i].0)
  }

  // ---------------------------------------------------------------------
  // getValue

  /** `k.toLowerCase().trim()` */
  function NormalizeKey(k: string): string {
    Strings.Trim(Strings.Lower(k))
  }

  predicate HeaderMatches(header: string, key: string) {
    NormalizeKey(header) == NormalizeKey(key)
  }

  /** Column `i` holds the first header matching `key`. */
  predicate FirstMatch(row: Row, key: string, i: int) {
    && 0 <= i < |row| && HeaderMatches(row[i].0, key)
    && forall j :: 0 <= j < i ==> !HeaderMatches(row[j].0, key)
  }

  /** `Object.keys(obj).find(k => k.toLowerCase().trim() === normalizedKey)`,
      scanning from column `from`. */
  function FindHeader(row: Row, key: string, from: nat := 0): (r: Option<nat>)
    requires from <= |row|
    ensures r.Some? ==> from <= r.value < |row|
    decreases |row| - from
  {
    if from == |row| then None
    else if HeaderMatches(row[from].0, key) then Some(from)
    else FindHeader(row, key, from + 1)
  }

  /** The header lookup finds the first matching header, and finds none
      only when no header matches. */
  lemma {:induction false} FindHeaderFirst(row: Row, key: string, from: nat := 0)
    requires from <= |row|
    requires forall j :: 0 <= j < from ==> !HeaderMatches(row[j].0, key)
    ensures FindHeader(row, key, from).Some? ==> FirstMatch(row, key, FindHeader(row, key, from).value)
    ensures FindHeader(row, key, from).None? ==> forall j :: 0 <= j < |row| ==> !HeaderMatches(row[j].0, key)
    decreases |row| - from
  {
    if from < |row| && !HeaderMatches(row[from].0, key) {
      FindHeaderFirst(row, key, from + 1);
    }
  }

  /** `getValue(obj, key)`: the value under the first header equal to `key`
      up to case and surrounding whitespace, or `undefined` when no header
      matches. Since `foundKey ? obj[foundKey] : undefined` tests the header
      for truthiness, a matching empty header also yields `undefined`. */
  function GetValue(row: Row, key: string): Option<string> {
    match FindHeader(row, key)
    case None => None
    case Some(i) => if row[i].0 == "" then None else Some(row[i].1)
  }

  /** `getValue` yields a value exactly when the first matching header is
      not empty, and then the value in that column. */
  lemma GetValueFirstMatch(row: Row, key: string)
    ensures GetValue(row, key).Some? <==> exists i :: FirstMatch(row, key, i) && row[i].0 != ""
    ensures forall i :: FirstMatch(row, key, i) && row[i].0 != "" ==> GetValue(row, key) == Some(row[i].1)
  {
    FindHeaderFirst(row, key);
    forall i, i' | FirstMatch(row, key, i) && FirstMatch(row, key, i') ensures i == i' {
    }
  }

  // ---------------------------------------------------------------------
  // Mapping one row

  /** `getValue(item, k) || ""` */
  function Text(v: Option<string>): string {
    v.GetOr("")
  }

  /** `.filter((o) => o.trim())`: the fragments that are not blank, in order. */
  function KeepNonBlank(parts: seq<string>): (r: seq<string>)
    ensures forall k :: 0 <= k < |r| ==> !Strings.AllWhitespace(r[k]) && r[k] in parts
    ensures (forall k :: 0 <= k < |parts| ==> !Strings.AllWhitespace(parts[k])) ==> r == parts
  {
    if parts == [] then []
    else if Strings.Trim(parts[0]) != "" then [parts[0]] + KeepNonBlank(parts[1..])
    else KeepNonBlank(parts[1..])
  }

  /** The filter keeps the order of `parts` and holds each non-blank
      fragment as often as `parts` does, and no blank one -- which
      determines it. */
  lemma KeepNonBlankFilters(parts: seq<string>)
    ensures Sequences.IsSubsequence(KeepNonBlank(parts), parts)
    ensures forall x :: multiset(KeepNonBlank(parts))[x] == if Strings.AllWhitespace(x) then 0 else multiset(parts)[x]
  {
    KeepNonBlankSubsequence(parts);
    KeepNonBlankCounts(parts);
  }

  /** The order half of `KeepNonBlankFilters`. */
  lemma {:induction false} KeepNonBlankSubsequence(parts: seq<string>)
    ensures Sequences.IsSubsequence(KeepNonBlank(parts), parts)
  {
    if parts != [] {
      var rest := KeepNonBlank(parts[1..]);
      KeepNonBlankSubsequence(parts[1..]);
      assert parts == [parts[0]] + parts[1..];
      if Strings.Trim(parts[0]) != "" {
        Sequences.KeepFirst(parts[0], rest, parts[1..]);
      } else {
        Sequences.DropFirst(parts[0], rest, parts[1..]);
      }
    }
  }

  /** The counting half of `KeepNonBlankFilters`. */
  lemma {:induction false} KeepNonBlankCounts(parts: seq<string>)
    ensures forall x :: multiset(KeepNonBlank(parts))[x] == if Strings.AllWhitespace(x) then 0 else multiset(parts)[x]
  {
    if parts != [] {
      KeepNonBlankCounts(parts[1..]);
      assert parts == [parts[0]] + parts[1..];
    }
  }

  /** The `oem` list: the `oems` column split on " / " with blank fragments
      dropped; kept fragments are not trimmed, and a missing or empty column
      gives no entries. */
  function SplitOems(column: Option<string>): (oem: seq<string>)
    ensures column.None? || column.value == "" ==> oem == []
    ensures column.Some? && column.value != "" ==>
              var parts := Strings.Split(column.value, OEM_SEPARATOR);
              && Sequences.IsSubsequence(oem, parts)
              && forall x :: multiset(oem)[x] == if Strings.AllWhitespace(x) then 0 else multiset(parts)[x]
    ensures forall k :: 0 <= k < |oem| ==> !Strings.AllWhitespace(oem[k]) && !Strings.OccursIn(OEM_SEPARATOR, oem[k])
  {
    if column.Some? && column.value != "" then
      var parts := Strings.Split(column.value, OEM_SEPARATOR);
      KeepNonBlankFilters(parts);
      KeepNonBlank(parts)
    else []
  }

  /** When no fragment of the column is blank, joining the `oem` list with
      " / " gives the column back. */
  lemma OemsRoundTrip(column: string)
    requires column != ""
    requires forall k :: 0 <= k < |Strings.Split(column, OEM_SEPARATOR)| ==>
               !Strings.AllWhitespace(Strings.Split(column, OEM_SEPARATOR)[k])
    ensures Strings.Join(SplitOems(Some(column)), OEM_SEPARATOR) == column
  {
    Strings.JoinSplit(column, OEM_SEPARATOR);
  }

  /** The column becomes a `details` entry: its header, lower-cased but not
      trimmed, is not promoted, and its value is not blank (the empty value
      included). */
  predicate IsDetailColumn(col: (string, string)) {
    Strings.Lower(col.0) !in EXCLUDE_KEYS && !Strings.AllWhitespace(col.1)
  }

  /** The `details` the `forEach` over the row's keys pushes, in column order. */
  function RowDetails(row: Row): (details: seq<Detail>)
    ensures |details| <= |row|
    ensures forall k :: 0 <= k < |details| ==>
              exists i :: 0 <= i < |row| && IsDetailColumn(row[i]) && details[k] == Detail(row[i].0, Strings.Trim(row[i].1))
  {
    if row == [] then []
    else
      var init := row[..|row| - 1];
      var col := row[|row| - 1];
      var before := RowDetails(init);
      assert forall i :: 0 <= i < |init| ==> init[i] == row[i];
      if IsDetailColumn(col) then
        before + [Detail(col.0, Strings.Trim(col.1))]
      else before
  }

  /** The detail a column would give: its header as written and its value
      trimmed. */
  function ColumnDetail(col: (string, string)): Detail {
    Detail(col.0, Strings.Trim(col.1))
  }

  /** One candidate detail per column, in column order. */
  function ColumnDetails(row: Row): (ds: seq<Detail>)
    ensures |ds| == |row| && forall i :: 0 <= i < |row| ==> ds[i] == ColumnDetail(row[i])
  {
    seq(|row|, i requires 0 <= i < |row| => ColumnDetail(row[i]))
  }

  /** A candidate detail is kept: its lower-cased name is not promoted and
      its trimmed value is not empty. */
  predicate DetailKept(d: Detail) {
    Strings.Lower(d.name) !in EXCLUDE_KEYS && d.data != ""
  }

  /** Whether a column is copied depends only on the detail it would give. */
  lemma DetailColumnKept(col: (string, string))
    ensures IsDetailColumn(col) <==> DetailKept(ColumnDetail(col))
  {
  }

  /** One more column adds its candidate, and adds it to `details` exactly
      when the candidate is kept. */
  lemma RowDetailsLast(row: Row)
    requires row != []
    ensures var init, d := row[..|row| - 1], ColumnDetail(row[|row| - 1]);
      && ColumnDetails(row) == ColumnDetails(init) + [d]
      && RowDetails(row) == if DetailKept(d) then RowDetails(init) + [d] else RowDetails(init)
  {
    var init, col := row[..|row| - 1], row[|row| - 1];
    assert ColumnDetails(row) == ColumnDetails(init) + [ColumnDetail(col)];
    DetailColumnKept(col);
  }

  /** `details` keeps the columns' order: it is the subsequence of the
      per-column candidates holding each kept candidate as often as the row
      gives it, and no other -- which determines it. */
  lemma RowDetailsInOrder(row: Row)
    ensures Sequences.IsSubsequence(RowDetails(row), ColumnDetails(row))
    ensures forall x :: multiset(RowDetails(row))[x] == if DetailKept(x) then multiset(ColumnDetails(row))[x] else 0
  {
    RowDetailsSubsequence(row);
    RowDetailsCounts(row);
  }

  /** The order half of `RowDetailsInOrder`. */
  lemma {:induction false} RowDetailsSubsequence(row: Row)
    ensures Sequences.IsSubsequence(RowDetails(row), ColumnDetails(row))
  {
    if row != [] {
      var init := row[..|row| - 1];
      var before, cands, d := RowDetails(init), ColumnDetails(init), ColumnDetail(row[|row| - 1]);
      RowDetailsSubsequence(init);
      RowDetailsLast(row);
      if DetailKept(d) {
        Sequences.KeepLast(before, cands, d);
      } else {
        Sequences.DropLast(before, cands, d);
      }
    }
  }

  /** The counting half of `RowDetailsInOrder`. */
  lemma {:induction false} RowDetailsCounts(row: Row)
    ensures forall x :: multiset(RowDetails(row))[x] == if DetailKept(x) then multiset(ColumnDetails(row))[x] else 0
  {
    if row != [] {
      var init := row[..|row| - 1];
      RowDetailsCounts(init);
      RowDetailsLast(row);
      KeptCountsStep(RowDetails(init), ColumnDetails(init), ColumnDetail(row[|row| - 1]));
    }
  }

  /** Appending one candidate, and keeping it exactly when it is kept,
      preserves the counts `RowDetailsInOrder` states. */
  lemma KeptCountsStep(before: seq<Detail>, cands: seq<Detail>, d: Detail)
    requires forall x :: multiset(before)[x] == if DetailKept(x) then multiset(cands)[x] else 0
    ensures var after := if DetailKept(d) then before + [d] else before;
      forall x :: multiset(after)[x] == if DetailKept(x) then multiset(cands + [d])[x] else 0
  {
  }

  /** Every detail column of the row, and only those (by `RowDetails`'s
      contract), is copied into `details`, under its header as written and
      with its value trimmed. */
  lemma {:induction false} RowDetailsComplete(row: Row)
    ensures forall i :: 0 <= i < |row| && IsDetailColumn(row[i]) ==> Detail(row[i].0, Strings.Trim(row[i].1)) in RowDetails(row)
  {
    if row != [] {
      var init := row[..|row| - 1];
      RowDetailsComplete(init);
      assert forall i :: 0 <= i < |init| ==> init[i] == row[i];
    }
  }

  /** The error text of a row without a usable `siyam_ref`. */
  function MissingRefMessage(row: Row): string {
    "Missing siyam_ref. Available keys: " + Strings.Join(Keys(row), ", ")
  }

  /** A row with a usable `siyam_ref`, mapped to the part payload; otherwise
      the "Missing siyam_ref" message. */
  function ParseRow(row: Row): (r: Result<PartData>)
    ensures r.Failure? <==> GetValue(row, "siyam_ref").None? || Strings.AllWhitespace(GetValue(row, "siyam_ref").value)
    ensures r.Failure? ==> r.error == MissingRefMessage(row)
    ensures r.Success? ==>
              && r.value.siyam_ref == Strings.Trim(GetValue(row, "siyam_ref").value)
              && r.value.siyam_ref != []
              && !Strings.IsWhitespace(r.value.siyam_ref[0])
              && !Strings.IsWhitespace(r.value.siyam_ref[|r.value.siyam_ref| - 1])
  {
    var siyamRef := GetValue(row, "siyam_ref");
    if siyamRef.None? || Strings.Trim(siyamRef.value) == "" then
      Failure(MissingRefMessage(row))
    else
      Success(PartData(
        Strings.Trim(siyamRef.value),
        Text(GetValue(row, "type")),
        Text(GetValue(row, "make")),
        Text(GetValue(row, "application")),
        SplitOems(GetValue(row, "oems")),
        Text(GetValue(row, "category")),
        RowDetails(row)))
  }

  /** A mapped row takes `radiator_type`, `make`, `model` and `category`
      from the `type`, `make`, `application` and `category` columns as they
      stand (empty when the column is absent), `oem` from the `oems`
      column, and `details` from the remaining columns. */
  lemma ParsedFields(row: Row)
    requires ParseRow(row).Success?
    ensures var d := ParseRow(row).value;
      && d.radiator_type == GetValue(row, "type").GetOr("")
      && d.make == GetValue(row, "make").GetOr("")
      && d.model == GetValue(row, "application").GetOr("")
      && d.category == GetValue(row, "category").GetOr("")
      && d.oem == SplitOems(GetValue(row, "oems"))
      && d.details == RowDetails(row)
  {
  }

  /** A trailing separator leaves a blank fragment, which is dropped. */
  lemma OemsExample()
    ensures SplitOems(Some("123 / 456 / ")) == ["123", "456"]
  {
    SplitExample();
    KeepNonBlankExample();
  }

  lemma SplitExample()
    ensures Strings.Split("123 / 456 / ", OEM_SEPARATOR) == ["123", "456", ""]
  {
    var tail := "456" + OEM_SEPARATOR + "";
    ExampleText();
    SplitStep("456", "");
    SplitEmpty();
    assert Strings.Split(tail, OEM_SEPARATOR) == ["456", ""];
    SplitStep("123", tail);
  }

  lemma ExampleText()
    ensures "123 / 456 / " == "123" + OEM_SEPARATOR + ("456" + OEM_SEPARATOR + "")
  {
  }

  lemma SplitEmpty()
    ensures Strings.Split("", OEM_SEPARATOR) == [""]
  {
    assert Strings.IndexOf("", OEM_SEPARATOR) == None;
  }

  /** A three-character piece without `/` in its last two places comes off
      whole. */
  lemma SplitStep(a: string, rest: string)
    requires |a| == 3 && a[1] != '/' && a[2] != '/'
    ensures Strings.Split(a + OEM_SEPARATOR + rest, OEM_SEPARATOR) == [a] + Strings.Split(rest, OEM_SEPARATOR)
  {
    var s := a + OEM_SEPARATOR + rest;
    forall j | 0 <= j < 3 ensures !Strings.OccursAt(OEM_SEPARATOR, s, j) {
      assert s[j + 1] != OEM_SEPARATOR[1];
    }
    assert s[3..6] == OEM_SEPARATOR;
    Strings.SplitAtFirst(s, OEM_SEPARATOR, 3);
    assert s[..3] == a && s[6..] == rest;
  }

  lemma KeepNonBlankExample()
    ensures KeepNonBlank(["123", "456", ""]) == ["123", "456"]
  {
    var p := ["123", "456", ""];
    assert !Strings.IsWhitespace('1') && !Strings.IsWhitespace('4') && !Strings.IsWhitespace('3') && !Strings.IsWhitespace('6');
    assert Strings.Trim("123") == "123";
    assert Strings.Trim("456") == "456";
    assert p[1..] == ["456", ""] && p[1..][1..] == [""];
  }

  /** The report line of row `i`: rows are numbered from 2, after the
      header line. */
  function RowError(i: nat, message: string): string {
    "Row " + Strings.NatToString(i + 2) + ": " + message
  }

  // ---------------------------------------------------------------------
  // The import run as a function of its inputs

  datatype Action = Created | Updated

  /** One entry of `processedParts`. */
  datatype ProcessedPart = ProcessedPart(siyam_ref: string, action: Action)

  /** The collection and the two report lists after some rows. */
  datatype ImportState = ImportState(
    docs: seq<StoredPart>, nextId: ObjectId, processed: seq<ProcessedPart>, errors: seq<string>)

  /** The outcome of mapping every row, in file order. */
  function ParseAll(rows: seq<Row>): seq<Result<PartData>> {
    seq(|rows|, i requires 0 <= i < |rows| => ParseRow(rows[i]))
  }

  /** The failure, if any, that the store raises while row `i` is written;
      rows past the end of `faults` meet none. */
  function FaultAt(faults: seq<Option<Thrown>>, i: nat): Option<Thrown> {
    if i < |faults| then faults[i] else None
  }

  /** `findOne` then `updateOne` or `create`. */
  function Upsert(st: ImportState, d: PartData): ImportState {
    match FirstWithRef(st.docs, d.siyam_ref)
    case Some(_) =>
      st.(docs := UpdateFirst(st.docs, d.siyam_ref, d),
          processed := st.processed + [ProcessedPart(d.siyam_ref, Updated)])
    case None =>
      st.(docs := st.docs + [StoredPart(st.nextId, Fresh(d))], nextId := st.nextId + 1,
          processed := st.processed + [ProcessedPart(d.siyam_ref, Created)])
  }

  /** One pass of the loop body for row `i`, given what mapping the row
      gave. A thrown store failure leaves the collection as it was
      (single-document writes are atomic). */
  function RowStep(st: ImportState, parsed: Result<PartData>, i: nat, fault: Option<Thrown>): ImportState {
    match parsed
    case Failure(message) =>
      st.(errors := st.errors + [RowError(i, message)])
    case Success(d) =>
      if fault.Some? then st.(errors := st.errors + [RowError(i, fault.value.MessageOr("Unknown error"))])
      else Upsert(st, d)
  }

  /** The state after the first `n` rows. */
  function ImportPrefix(st0: ImportState, parsed: seq<Result<PartData>>, faults: seq<Option<Thrown>>, n: nat): ImportState
    requires n <= |parsed|
  {
    if n == 0 then st0
    else RowStep(ImportPrefix(st0, parsed, faults, n - 1), parsed[n - 1], n - 1, FaultAt(faults, n - 1))
  }

  /** The state after the whole file. */
  function Import(st0: ImportState, rows: seq<Row>, faults: seq<Option<Thrown>>): ImportState {
    ImportPrefix(st0, ParseAll(rows), faults, |rows|)
  }

  /** The upsert of a payload: with a part of that `siyam_ref` stored, the
      first such part now carries the payload (same `_id`, same image and
      Amazon fields) and is reported "updated"; otherwise exactly one new
      part carrying it is appended with a fresh `_id` and reported
      "created". No other stored part changes, and the error list is
      untouched. */
  lemma UpsertEffect(st: ImportState, d: PartData)
    requires IdsBelow(st.docs, st.nextId)
    ensures var r := Upsert(st, d);
      && r.errors == st.errors
      && IdsBelow(r.docs, r.nextId)
      && match FirstWithRef(st.docs, d.siyam_ref)
         case Some(k) =>
           && |r.docs| == |st.docs| && r.nextId == st.nextId
           && r.docs[k].id == st.docs[k].id && Carries(r.docs[k].part, d)
           && r.docs[k].part.image_url == st.docs[k].part.image_url
           && r.docs[k].part.image_key == st.docs[k].part.image_key
           && r.docs[k].part.amazon_url == st.docs[k].part.amazon_url
           && (forall j :: 0 <= j < |st.docs| && j != k ==> r.docs[j] == st.docs[j])
           && r.processed == st.processed + [ProcessedPart(d.siyam_ref, Updated)]
         case None =>
           && |r.docs| == |st.docs| + 1 && r.docs[..|st.docs|] == st.docs
           && Carries(r.docs[|st.docs|].part, d)
           && (forall j :: 0 <= j < |st.docs| ==> st.docs[j].id != r.docs[|st.docs|].id)
           && r.processed == st.processed + [ProcessedPart(d.siyam_ref, Created)]
  {
    var r := Upsert(st, d);
    match FirstWithRef(st.docs, d.siyam_ref)
    case Some(k) =>
      assert forall j :: 0 <= j < |r.docs| ==> r.docs[j].id == st.docs[j].id;
    case None =>
      assert r.docs[..|st.docs|] == st.docs;
  }

  /** Every row yields exactly one outcome: a processed entry, or an error
      "Row {i+2}: ..." -- the latter exactly when the row has no usable
      `siyam_ref` or the store failed, and then the collection is
      untouched. Earlier entries are kept. */
  lemma RowStepOutcome(st: ImportState, parsed: Result<PartData>, i: nat, fault: Option<Thrown>)
    ensures var r := RowStep(st, parsed, i, fault);
      && r.processed[..|st.processed|] == st.processed
      && r.errors[..|st.errors|] == st.errors
      && |r.processed| + |r.errors| == |st.processed| + |st.errors| + 1
      && (|r.errors| == |st.errors| + 1 <==> parsed.Failure? || fault.Some?)
      && (parsed.Failure? ==>
            r.docs == st.docs && r.nextId == st.nextId && r.processed == st.processed
            && r.errors == st.errors + [RowError(i, parsed.error)])
      && (parsed.Success? && fault.Some? ==>
            r.docs == st.docs && r.nextId == st.nextId && r.processed == st.processed
            && r.errors == st.errors + [RowError(i, fault.value.MessageOr("Unknown error"))])
  {
    var r := RowStep(st, parsed, i, fault);
    assert r.processed[..|st.processed|] == st.processed;
    assert r.errors[..|st.errors|] == st.errors;
  }

  /** The number of rows with a usable `siyam_ref` among the first `n`. */
  function ValidCount(parsed: seq<Result<PartData>>, n: nat): nat
    requires n <= |parsed|
  {
    if n == 0 then 0
    else ValidCount(parsed, n - 1) + (if parsed[n - 1].Success? then 1 else 0)
  }

  /** The report balances: every row is counted once, as processed or as
      an error; without store failures, exactly the rows with a usable
      `siyam_ref` are processed. */
  lemma {:induction false} ImportCounts(st0: ImportState, parsed: seq<Result<PartData>>, faults: seq<Option<Thrown>>, n: nat)
    requires n <= |parsed|
    ensures var st := ImportPrefix(st0, parsed, faults, n);
      && |st.processed| + |st.errors| == |st0.processed| + |st0.errors| + n
      && (faults == [] ==> |st.processed| == |st0.processed| + ValidCount(parsed, n))
  {
    if n > 0 {
      ImportCounts(st0, parsed, faults, n - 1);
      RowStepOutcome(ImportPrefix(st0, parsed, faults, n - 1), parsed[n - 1], n - 1, FaultAt(faults, n - 1));
    }
  }

  // ---------------------------------------------------------------------
  // Idempotence

  /** The payload of the last row among the first `n` whose `siyam_ref` is
      `ref`. */
  function LastParsed(parsed: seq<Result<PartData>>, n: nat, ref: string): (r: Option<PartData>)
    requires n <= |parsed|
    ensures r.Some? ==> r.value.siyam_ref == ref
  {
    if n == 0 then None
    else match parsed[n - 1]
      case Success(d) => if d.siyam_ref == ref then Some(d) else LastParsed(parsed, n - 1, ref)
      case Failure(_) => LastParsed(parsed, n - 1, ref)
  }

  lemma {:induction false} LastParsedMonotone(parsed: seq<Result<PartData>>, n: nat, m: nat, ref: string)
    requires n <= m <= |parsed|
    requires LastParsed(parsed, n, ref).Some?
    ensures LastParsed(parsed, m, ref).Some?
    decreases m
  {
    if m > n {
      LastParsedMonotone(parsed, n, m - 1, ref);
    }
  }

  /** Two document lists with the same `siyam_ref` at every shared position,
      where the longer one adds no `ref`, have the same first match. */
  lemma FirstWithRefFrame(a: seq<StoredPart>, b: seq<StoredPart>, ref: string)
    requires |a| <= |b|
    requires forall i :: 0 <= i < |a| ==> a[i].part.siyam_ref == b[i].part.siyam_ref
    requires forall i :: |a| <= i < |b| ==> b[i].part.siyam_ref != ref
    ensures FirstWithRef(a, ref) == FirstWithRef(b, ref)
  {
  }

  /** The first part stored under `ref` carries payload `d`. */
  ghost predicate CarriedAt(docs: seq<StoredPart>, ref: string, d: PartData) {
    FirstWithRef(docs, ref).Some? && Carries(docs[FirstWithRef(docs, ref).value].part, d)
  }

  /** After an upsert, the payload's `siyam_ref` is found on a part carrying
      the payload. */
  lemma UpsertCarries(st: ImportState, d: PartData)
    ensures CarriedAt(Upsert(st, d).docs, d.siyam_ref, d)
  {
    var r := Upsert(st, d);
    match FirstWithRef(st.docs, d.siyam_ref)
    case Some(k) =>
      FirstWithRefFrame(st.docs, r.docs, d.siyam_ref);
    case None =>
      assert forall j :: 0 <= j < |st.docs| ==> r.docs[j] == st.docs[j];
      assert r.docs[|st.docs|].part.siyam_ref == d.siyam_ref;
  }

  /** An upsert leaves every other `siyam_ref` found where it was, on an
      unchanged part. */
  lemma UpsertKeepsOther(st: ImportState, d: PartData, ref: string, e: PartData)
    requires ref != d.siyam_ref
    requires CarriedAt(st.docs, ref, e)
    ensures CarriedAt(Upsert(st, d).docs, ref, e)
  {
    var r := Upsert(st, d);
    FirstWithRefFrame(st.docs, r.docs, ref);
  }

  /** After an import without store failures, each `siyam_ref` that some
      valid row carries is found on a part holding the last such row's
      payload. */
  lemma {:induction false} ImportCarriesLast(st0: ImportState, parsed: seq<Result<PartData>>, n: nat, ref: string)
    requires n <= |parsed|
    requires LastParsed(parsed, n, ref).Some?
    ensures CarriedAt(ImportPrefix(st0, parsed, [], n).docs, ref, LastParsed(parsed, n, ref).value)
  {
    var prev := ImportPrefix(st0, parsed, [], n - 1);
    match parsed[n - 1]
    case Failure(_) =>
      ImportCarriesLast(st0, parsed, n - 1, ref);
    case Success(d) =>
      assert ImportPrefix(st0, parsed, [], n).docs == Upsert(prev, d).docs;
      if d.siyam_ref != ref {
        ImportCarriesLast(st0, parsed, n - 1, ref);
        UpsertKeepsOther(prev, d, ref, LastParsed(parsed, n - 1, ref).value);
      } else {
        UpsertCarries(prev, d);
      }
  }

  /** What a repeated import has made of part `i` of `base` after `n` rows:
      the first part of each `siyam_ref` carries the last payload seen for
      it; every other part is as it was. */
  function Rewritten(base: seq<StoredPart>, parsed: seq<Result<PartData>>, n: nat, i: nat): StoredPart
    requires n <= |parsed| && i < |base|
  {
    var ref := base[i].part.siyam_ref;
    var last := LastParsed(parsed, n, ref);
    if FirstWithRef(base, ref) == Some(i) && last.Some? then StoredPart(base[i].id, Assign(base[i].part, last.value))
    else base[i]
  }

  /** Every `siyam_ref` the rows carry is stored, on a part already holding
      the last payload for it. */
  ghost predicate Absorbs(base: seq<StoredPart>, parsed: seq<Result<PartData>>) {
    forall ref :: LastParsed(parsed, |parsed|, ref).Some? ==>
      && FirstWithRef(base, ref).Some?
      && Carries(base[FirstWithRef(base, ref).value].part, LastParsed(parsed, |parsed|, ref).value)
  }

  /** After the first `n` rows of a re-import into `base`: no part has been
      created, every part is as `Rewritten` says, and every processed entry
      added is an update. */
  ghost predicate Reimported(base: ImportState, parsed: seq<Result<PartData>>, n: nat)
    requires n <= |parsed|
  {
    var st := ImportPrefix(base, parsed, [], n);
    && |st.docs| == |base.docs| && st.nextId == base.nextId
    && (forall i :: 0 <= i < |base.docs| ==> st.docs[i] == Rewritten(base.docs, parsed, n, i))
    && |base.processed| <= |st.processed| && st.processed[..|base.processed|] == base.processed
    && (forall k :: |base.processed| <= k < |st.processed| ==> st.processed[k].action == Updated)
  }

  /** Importing into a collection that absorbs the rows only rewrites
      existing parts: no part is created, and every processed entry is an
      update. */
  lemma {:induction false} ReimportPrefix(base: ImportState, parsed: seq<Result<PartData>>, n: nat)
    requires n <= |parsed|
    requires Absorbs(base.docs, parsed)
    ensures Reimported(base, parsed, n)
  {
    if n > 0 {
      ReimportPrefix(base, parsed, n - 1);
      if parsed[n - 1].Success? {
        ReimportStep(base, parsed, n);
      } else {
        ReimportSkip(base, parsed, n);
      }
    }
  }

  /** One row of a re-import without a usable `siyam_ref`: nothing
      changes, in the store or in the report of processed rows. */
  lemma ReimportSkip(base: ImportState, parsed: seq<Result<PartData>>, n: nat)
    requires 0 < n <= |parsed| && parsed[n - 1].Failure?
    requires Reimported(base, parsed, n - 1)
    ensures Reimported(base, parsed, n)
  {
    var prev := ImportPrefix(base, parsed, [], n - 1);
    var st := ImportPrefix(base, parsed, [], n);
    assert st.docs == prev.docs && st.nextId == prev.nextId && st.processed == prev.processed;
    forall i | 0 <= i < |base.docs| ensures Rewritten(base.docs, parsed, n, i) == Rewritten(base.docs, parsed, n - 1, i) {
    }
  }

  /** Appending an update to a report that extends `b` with updates only
      keeps it so. */
  lemma UpdatesExtend(b: seq<ProcessedPart>, p: seq<ProcessedPart>, x: ProcessedPart)
    requires |b| <= |p| && p[..|b|] == b
    requires forall k :: |b| <= k < |p| ==> p[k].action == Updated
    requires x.action == Updated
    ensures var s := p + [x];
      && |b| <= |s| && s[..|b|] == b
      && forall k :: |b| <= k < |s| ==> s[k].action == Updated
  {
    var s := p + [x];
    assert s[..|b|] == p[..|b|];
  }

  /** One row of a re-import with a usable `siyam_ref`: it updates the part
      the collection already holds for it. */
  lemma ReimportStep(base: ImportState, parsed: seq<Result<PartData>>, n: nat)
    requires 0 < n <= |parsed| && parsed[n - 1].Success?
    requires Absorbs(base.docs, parsed)
    requires Reimported(base, parsed, n - 1)
    ensures Reimported(base, parsed, n)
  {
    var d := parsed[n - 1].value;
    var prev := ImportPrefix(base, parsed, [], n - 1);
    var st := ImportPrefix(base, parsed, [], n);
    var ref := d.siyam_ref;
    assert LastParsed(parsed, n, ref) == Some(d);
    LastParsedMonotone(parsed, n, |parsed|, ref);
    FirstWithRefFrame(base.docs, prev.docs, ref);
    var k := FirstWithRef(base.docs, ref).value;
    assert st.docs == UpdateFirst(prev.docs, ref, d);
    assert st.processed == prev.processed + [ProcessedPart(ref, Updated)];
    UpdatesExtend(base.processed, prev.processed, ProcessedPart(ref, Updated));
    forall i | 0 <= i < |base.docs| ensures st.docs[i] == Rewritten(base.docs, parsed, n, i) {
      if i == k {
        AssignOverrides(base.docs[k].part, d, d);
        if LastParsed(parsed, n - 1, ref).Some? {
          AssignOverrides(base.docs[k].part, LastParsed(parsed, n - 1, ref).value, d);
        }
      } else {
        var ref' := base.docs[i].part.siyam_ref;
        assert ref' != ref ==> LastParsed(parsed, n, ref') == LastParsed(parsed, n - 1, ref');
      }
    }
  }

  /** Re-importing the same rows, without store failures, into the
      collection an import produced leaves the collection as it is and
      reports every row with a usable `siyam_ref` as "updated". */
  lemma ImportIdempotent(st0: ImportState, rows: seq<Row>)
    ensures var st1 := Import(st0, rows, []);
      var st2 := Import(ImportState(st1.docs, st1.nextId, [], []), rows, []);
      && st2.docs == st1.docs && st2.nextId == st1.nextId
      && |st2.processed| == ValidCount(ParseAll(rows), |rows|)
      && (forall k :: 0 <= k < |st2.processed| ==> st2.processed[k].action == Updated)
  {
    var parsed := ParseAll(rows);
    var st1 := Import(st0, rows, []);
    var base := ImportState(st1.docs, st1.nextId, [], []);
    forall ref | LastParsed(parsed, |parsed|, ref).Some?
      ensures FirstWithRef(st1.docs, ref).Some?
      ensures Carries(st1.docs[FirstWithRef(st1.docs, ref).value].part, LastParsed(parsed, |parsed|, ref).value)
    {
      ImportCarriesLast(st0, parsed, |parsed|, ref);
    }
    assert Absorbs(base.docs, parsed);
    ReimportPrefix(base, parsed, |parsed|);
    ImportCounts(base, parsed, [], |parsed|);
    var st2 := Import(base, rows, []);
    forall i | 0 <= i < |st1.docs| ensures st2.docs[i] == st1.docs[i] {
      var ref := st1.docs[i].part.siyam_ref;
      if FirstWithRef(st1.docs, ref) == Some(i) && LastParsed(parsed, |parsed|, ref).Some? {
        AssignOverrides(st1.docs[i].part, LastParsed(parsed, |parsed|, ref).value, LastParsed(parsed, |parsed|, ref).value);
      }
    }
  }

  // ---------------------------------------------------------------------
  // The handler

  /** The JSON body of the import response. */
  datatype ImportResponse =
    | ImportReport(message: string, processed: nat, errors: nat, errorDetails: Option<seq<string>>, filePath: string)
    | ImportFailed(status: nat, error: string)

  /** The final report: counts of both lists, with the error lines only
      when there are any. */
  function Report(processed: seq<ProcessedPart>, errors: seq<string>): (r: ImportResponse)
    ensures r.ImportReport? && r.processed == |processed| && r.errors == |errors|
    ensures r.errorDetails.Some? <==> |errors| > 0
    ensures r.errorDetails.Some? ==> r.errorDetails.value == errors
    ensures r.message == "Processed " + Strings.NatToString(|processed|) + " parts successfully"
  {
    ImportReport(
      "Processed " + Strings.NatToString(|processed|) + " parts successfully",
      |processed|, |errors|,
      if |errors| > 0 then Some(errors) else None,
      CSV_FILE_PATH)
  }

  /** What reading the CSV file produced. */
  datatype CsvSource =
    | FileMissing                 // `existsSync` is false
    | ReadFailed(error: Thrown)   // the read stream emitted an error
    | Parsed(rows: seq<Row>)

  /** The `forEach` collecting a row's `details`. */
  method CollectDetails(item: Row) returns (details: seq<Detail>)
    ensures details == RowDetails(item)
  {
    details := [];
    for i := 0 to |item|
      invariant details == RowDetails(item[..i])
    {
      var key := item[i].0;
      if Strings.Lower(key) !in EXCLUDE_KEYS {
        var value := item[i].1;
        if value != "" && Strings.Trim(value) != "" {
          details := details + [Detail(key, Strings.Trim(value))];
        }
      }
      assert item[..i + 1][..i] == item[..i];
    }
    assert item[..|item|] == item;
  }

  /** The mapping at the top of the loop body: a usable `siyam_ref` first,
      then the mapped fields and the `details`. */
  method MapRow(item: Row) returns (r: Result<PartData>)
    ensures r == ParseRow(item)
  {
    var siyamRef := GetValue(item, "siyam_ref");
    if siyamRef.None? || Strings.Trim(siyamRef.value) == "" {
      return Failure(MissingRefMessage(item));
    }
    var details := CollectDetails(item);
    r := Success(PartData(
      Strings.Trim(siyamRef.value),
      Text(GetValue(item, "type")),
      Text(GetValue(item, "make")),
      Text(GetValue(item, "application")),
      SplitOems(GetValue(item, "oems")),
      Text(GetValue(item, "category")),
      details));
  }

  /** The rest of the loop body for row `i`: record the mapping error, or
      the store's failure, or upsert the payload. */
  method ImportRow(coll: PartCollection, mapped: Result<PartData>, i: nat, fault: Option<Thrown>,
                   processed0: seq<ProcessedPart>, errors0: seq<string>)
    returns (processed: seq<ProcessedPart>, errors: seq<string>)
    requires coll.Valid()
    modifies coll
    ensures coll.Valid()
    ensures ImportState(coll.docs, coll.nextId, processed, errors)
         == RowStep(ImportState(old(coll.docs), old(coll.nextId), processed0, errors0), mapped, i, fault)
  {
    processed, errors := processed0, errors0;
    if mapped.Failure? {
      errors := errors + [RowError(i, mapped.error)];
      return;
    }
    var partData := mapped.value;
    if fault.Some? {
      errors := errors + [RowError(i, fault.value.MessageOr("Unknown error"))];
      return;
    }
    var existing := coll.FindOne(partData.siyam_ref);
    if existing.Some? {
      coll.UpdateOne(partData.siyam_ref, partData);
      processed := processed + [ProcessedPart(partData.siyam_ref, Updated)];
    } else {
      var _ := coll.Create(partData);
      processed := processed + [ProcessedPart(partData.siyam_ref, Created)];
    }
  }

  /** The row loop: one outcome per row, into `processedParts` or `errors`,
      continuing past every failure. */
  method ImportRows(coll: PartCollection, rows: seq<Row>, faults: seq<Option<Thrown>>)
    returns (processed: seq<ProcessedPart>, errors: seq<string>)
    requires coll.Valid()
    modifies coll
    ensures coll.Valid()
    ensures ImportState(coll.docs, coll.nextId, processed, errors)
         == Import(ImportState(old(coll.docs), old(coll.nextId), [], []), rows, faults)
  {
    ghost var st0 := ImportState(coll.docs, coll.nextId, [], []);
    ghost var parsed := ParseAll(rows);
    processed, errors := [], [];
    for i := 0 to |rows|
      invariant coll.Valid()
      invariant ImportState(coll.docs, coll.nextId, processed, errors) == ImportPrefix(st0, parsed, faults, i)
    {
      var mapped := MapRow(rows[i]);
      assert mapped == parsed[i];
      processed, errors := ImportRow(coll, mapped, i, FaultAt(faults, i), processed, errors);
    }
  }

  /** `GET`: connect, check the file, parse it, refuse an empty result, run
      the row loop and report. */
  method HandleImport(coll: PartCollection, connectFault: Option<Thrown>, source: CsvSource,
                      faults: seq<Option<Thrown>>) returns (resp: ImportResponse)
    requires coll.Valid()
    modifies coll
    ensures coll.Valid()
    ensures resp.ImportFailed? ==> coll.docs == old(coll.docs) && coll.nextId == old(coll.nextId)
    ensures connectFault.Some? ==> resp == ImportFailed(500, connectFault.value.MessageOr("Failed to process CSV file"))
    ensures connectFault.None? && source.FileMissing? ==>
              resp == ImportFailed(404, "CSV file not found at: " + CSV_FILE_PATH)
    ensures connectFault.None? && source.ReadFailed? ==>
              resp == ImportFailed(500, source.error.MessageOr("Failed to process CSV file"))
    ensures connectFault.None? && source == Parsed([]) ==>
              resp == ImportFailed(400, "CSV file is empty or could not be parsed")
    ensures connectFault.None? && source.Parsed? && source.rows != [] ==>
              var st := Import(ImportState(old(coll.docs), old(coll.nextId), [], []), source.rows, faults);
              && coll.docs == st.docs && coll.nextId == st.nextId
              && resp == Report(st.processed, st.errors)
  {
    if connectFault.Some? {
      return ImportFailed(500, connectFault.value.MessageOr("Failed to process CSV file"));
    }
    match source
    case FileMissing =>
      resp := ImportFailed(404, "CSV file not found at: " + CSV_FILE_PATH);
    case ReadFailed(e) =>
      resp := ImportFailed(500, e.MessageOr("Failed to process CSV file"));
    case Parsed(rows) =>
      if |rows| == 0 {
        resp := ImportFailed(400, "CSV file is empty or could not be parsed");
      } else {
        var processed, errors := ImportRows(coll, rows, faults);
        resp := Report(processed, errors);
      }
  }
}

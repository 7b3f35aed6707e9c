/**
 The record normaliser: `process_csv` turns the parsed rows of the attendee
 table into one flat, ordered list of attendee records. A field may pack
 several attendees separated by `;`; the pieces of the four fields are
 trimmed, padded with empty text to a common length and zipped.
 */
module Normalizer {
  import opened Text

  /** One badge's worth of data: the record built at lines 45-50. */
  datatype Attendee = Attendee(firstName: string, lastName: string, organisation: string, additional: string)

  /** A row as the CSV reader hands it over: header name to field text. */
  type Row = map<string, string>

  const FirstNameColumn: string := "First name of attendee"
  const LastNameColumn: string := "Last name of attendee"
  const OrganisationColumn: string := "Organisation"
  const AdditionalColumn: string := "additional"

  /** The lookup `row[column]` of a mandatory column failed (a KeyError). */
  datatype Error = MissingColumn(column: string)

  datatype Result<T> = Ok(value: T) | Err(error: Error)

  /** The four per-row lists before padding. */
  datatype Columns = Columns(firstNames: seq<string>, lastNames: seq<string>,
                             organisations: seq<string>, additionals: seq<string>)

  /** `[p.strip() for p in field.split(';')]` */
  function Pieces(field: string): seq<string> {
    var ps := Split(field);
    seq(|ps|, k requires 0 <= k < |ps| => Trim(ps[k]))
  }

  /** `[''] * n` */
  function Blanks(n: nat): seq<string> {
    seq(n, _ => "")
  }

  /** The k-th element of `xs`, or empty text past its end. */
  function PieceOr(xs: seq<string>, k: nat): string {
    if k < |xs| then xs[k] else ""
  }

  /** `xs.extend([''] * (n - len(xs)))`; a negative repetition count gives
      nothing in Python, so a list already of length `n` or more is kept. */
  function Pad(xs: seq<string>, n: nat): seq<string> {
    if |xs| < n then xs + Blanks(n - |xs|) else xs
  }

  function Max(a: nat, b: nat): nat {
    if a < b then b else a
  }

  /** `max(len(first_names), len(last_names), len(organisations), len(additionals))` */
  function MaxLen(c: Columns): (n: nat)
    ensures |c.firstNames| <= n && |c.lastNames| <= n && |c.organisations| <= n && |c.additionals| <= n
    ensures n == |c.firstNames| || n == |c.lastNames| || n == |c.organisations| || n == |c.additionals|
  {
    Max(Max(|c.firstNames|, |c.lastNames|), Max(|c.organisations|, |c.additionals|))
  }

  /** Lines 26-34: the three mandatory lookups in source order, then the
      optional `additional` column, defaulted to one blank per first name. */
  function SplitColumns(row: Row): Result<Columns> {
    if FirstNameColumn !in row then Err(MissingColumn(FirstNameColumn))
    else if LastNameColumn !in row then Err(MissingColumn(LastNameColumn))
    else if OrganisationColumn !in row then Err(MissingColumn(OrganisationColumn))
    else
      var firstNames := Pieces(row[FirstNameColumn]);
      var additionals := if AdditionalColumn in row then Pieces(row[AdditionalColumn])
                         else Blanks(|firstNames|);
      Ok(Columns(firstNames, Pieces(row[LastNameColumn]), Pieces(row[OrganisationColumn]), additionals))
  }

  /** Lines 36-42: every list padded to the longest one. */
  function PadColumns(c: Columns): Columns {
    var n := MaxLen(c);
    Columns(Pad(c.firstNames, n), Pad(c.lastNames, n), Pad(c.organisations, n), Pad(c.additionals, n))
  }

  /** Python's `zip` over the four lists: it stops at the shortest one. */
  function Zip(c: Columns): seq<Attendee> {
    var n := Min(Min(|c.firstNames|, |c.lastNames|), Min(|c.organisations|, |c.additionals|));
    seq(n, k requires 0 <= k < n =>
      Attendee(c.firstNames[k], c.lastNames[k], c.organisations[k], c.additionals[k]))
  }

  function Min(a: nat, b: nat): nat {
    if a < b then a else b
  }

  /** The records one row contributes (one pass of the loop at lines 24-51). */
  function RowAttendees(row: Row): Result<seq<Attendee>> {
    match SplitColumns(row)
    case Err(e) => Err(e)
    case Ok(c) => Ok(Zip(PadColumns(c)))
  }

  /** All rows in order; the first row with a missing column aborts the run. */
  function Normalize(rows: seq<Row>): Result<seq<Attendee>>
    decreases |rows|
  {
    if |rows| == 0 then Ok([])
    else
      match Normalize(rows[..|rows| - 1])
      case Err(e) => Err(e)
      case Ok(prev) => AppendRow(prev, rows[|rows| - 1])
  }

  /** The result of appending one row's records to `attendees`. */
  function AppendRow(attendees: seq<Attendee>, row: Row): Result<seq<Attendee>> {
    match RowAttendees(row)
    case Err(e) => Err(e)
    case Ok(recs) => Ok(attendees + recs)
  }

  /** `process_csv` on already-parsed rows: the loop over rows (lines 24-51).
      A missing mandatory column aborts the whole run. */
  method ProcessCsv(rows: seq<Row>) returns (result: Result<seq<Attendee>>)
    ensures result == Normalize(rows)
  {
    var attendees: seq<Attendee> := [];
    var r := 0;
    while r < |rows|
      invariant 0 <= r <= |rows|
      invariant Normalize(rows[..r]) == Ok(attendees)
    {
      assert rows[..r + 1][..r] == rows[..r];
      var next := ProcessRow(attendees, rows[r]);
      if next.Err? {
        NormalizeStopsAtError(rows, r + 1);
        return next;
      }
      attendees := next.value;
      r := r + 1;
    }
    assert rows[..r] == rows;
    return Ok(attendees);
  }

  /** One pass of the row loop (lines 26-51): look up, split and trim the
      four fields, pad them to the longest, and append the zipped records to
      `attendees`. */
  method ProcessRow(attendees: seq<Attendee>, row: Row) returns (result: Result<seq<Attendee>>)
    ensures result == AppendRow(attendees, row)
  {
    if FirstNameColumn !in row {
      return Err(MissingColumn(FirstNameColumn));
    }
    var firstNames := Pieces(row[FirstNameColumn]);
    if LastNameColumn !in row {
      return Err(MissingColumn(LastNameColumn));
    }
    var lastNames := Pieces(row[LastNameColumn]);
    if OrganisationColumn !in row {
      return Err(MissingColumn(OrganisationColumn));
    }
    var organisations := Pieces(row[OrganisationColumn]);
    var additionals;
    if AdditionalColumn in row {
      additionals := Pieces(row[AdditionalColumn]);
    } else {
      additionals := Blanks(|firstNames|);
    }
    var split := Columns(firstNames, lastNames, organisations, additionals);
    assert SplitColumns(row) == Ok(split);
    var out := AppendPadded(attendees, split);
    return Ok(out);
  }

  /** Lines 36-51: pad the four lists to the longest one in place, then append
      one record per position to `attendees`. */
  method AppendPadded(attendees: seq<Attendee>, split: Columns) returns (out: seq<Attendee>)
    ensures out == attendees + Zip(PadColumns(split))
  {
    var firstNames, lastNames, organisations, additionals :=
      split.firstNames, split.lastNames, split.organisations, split.additionals;
    var maxLen := MaxLen(split);

    firstNames := firstNames + Blanks(maxLen - |firstNames|);
    lastNames := lastNames + Blanks(maxLen - |lastNames|);
    organisations := organisations + Blanks(maxLen - |organisations|);
    additionals := additionals + Blanks(maxLen - |additionals|);
    ghost var padded := Columns(firstNames, lastNames, organisations, additionals);
    assert padded == PadColumns(split);
    ghost var zipped := Zip(padded);
    assert |zipped| == maxLen;

    out := attendees;
    var k := 0;
    while k < maxLen
      invariant 0 <= k <= maxLen
      invariant out == attendees + zipped[..k]
    {
      assert zipped[k] == Attendee(firstNames[k], lastNames[k], organisations[k], additionals[k]);
      out := out + [Attendee(firstNames[k], lastNames[k], organisations[k], additionals[k])];
      k := k + 1;
      assert zipped[..k] == zipped[..k - 1] + [zipped[k - 1]];
    }
    assert zipped[..k] == zipped;
  }

  /** Once a prefix of the rows has failed, the whole run fails with that error. */
  lemma {:induction false} NormalizeStopsAtError(rows: seq<Row>, n: nat)
    requires n <= |rows| && Normalize(rows[..n]).Err?
    ensures Normalize(rows) == Normalize(rows[..n])
    decreases |rows| - n
  {
    if n < |rows| {
      assert rows[..n + 1][..n] == rows[..n];
      NormalizeStopsAtError(rows, n + 1);
    } else {
      assert rows[..n] == rows;
    }
  }

  // ---------------------------------------------------------------------
  // Properties of one row
  // ---------------------------------------------------------------------

  /** Padding reaches the target length, keeps the original entries and adds
      only empty text at the end. */
  lemma PadSpec(xs: seq<string>, n: nat)
    requires |xs| <= n
    ensures |Pad(xs, n)| == n
    ensures Pad(xs, n)[..|xs|] == xs
    ensures forall k :: |xs| <= k < n ==> Pad(xs, n)[k] == ""
  {
  }

  /** After padding all four lists have the length of the longest one. */
  lemma PaddedColumnsAgree(c: Columns)
    ensures var p := PadColumns(c);
      && |p.firstNames| == MaxLen(c) && |p.lastNames| == MaxLen(c)
      && |p.organisations| == MaxLen(c) && |p.additionals| == MaxLen(c)
      && p.firstNames[..|c.firstNames|] == c.firstNames
      && p.lastNames[..|c.lastNames|] == c.lastNames
      && p.organisations[..|c.organisations|] == c.organisations
      && p.additionals[..|c.additionals|] == c.additionals
  {
    PadSpec(c.firstNames, MaxLen(c));
    PadSpec(c.lastNames, MaxLen(c));
    PadSpec(c.organisations, MaxLen(c));
    PadSpec(c.additionals, MaxLen(c));
  }

  /** A row yields the right error exactly when a mandatory column is missing,
      naming the first one missing in the order first name, last name,
      organisation. */
  lemma RowError(row: Row)
    ensures RowAttendees(row).Err? <==>
      FirstNameColumn !in row || LastNameColumn !in row || OrganisationColumn !in row
    ensures FirstNameColumn !in row ==> RowAttendees(row) == Err(MissingColumn(FirstNameColumn))
    ensures FirstNameColumn in row && LastNameColumn !in row ==>
      RowAttendees(row) == Err(MissingColumn(LastNameColumn))
    ensures FirstNameColumn in row && LastNameColumn in row && OrganisationColumn !in row ==>
      RowAttendees(row) == Err(MissingColumn(OrganisationColumn))
  {
  }

  /** The number of `;`-pieces a present column contributes, or `missing` for
      an absent one. */
  function PieceCount(row: Row, column: string, missing: nat): nat {
    if column in row then |Pieces(row[column])| else missing
  }

  /** A row yields as many records as its longest list of pieces, at least one. */
  lemma RowRecordCount(row: Row)
    requires RowAttendees(row).Ok?
    ensures var n := |RowAttendees(row).value|;
      var first := PieceCount(row, FirstNameColumn, 0);
      && n == Max(Max(first, PieceCount(row, LastNameColumn, 0)),
                  Max(PieceCount(row, OrganisationColumn, 0), PieceCount(row, AdditionalColumn, first)))
      && n >= 1
  {
    var c := SplitColumns(row).value;
    PaddedColumnsAgree(c);
  }

  /** A row yields one more record than the largest number of separators in
      any of its present columns. */
  lemma RowRecordCountBySeparators(row: Row)
    requires RowAttendees(row).Ok?
    ensures var n := |RowAttendees(row).value|;
      var extra := if AdditionalColumn in row then Separators(row[AdditionalColumn]) else 0;
      n == 1 + Max(Max(Separators(row[FirstNameColumn]), Separators(row[LastNameColumn])),
                   Max(Separators(row[OrganisationColumn]), extra))
  {
    RowRecordCount(row);
    SplitLength(row[FirstNameColumn]);
    SplitLength(row[LastNameColumn]);
    SplitLength(row[OrganisationColumn]);
    if AdditionalColumn in row {
      SplitLength(row[AdditionalColumn]);
    }
  }

  /** The k-th record of a row holds, in each field, the trimmed k-th piece of
      that column, or empty text where the column has fewer pieces (or, for
      `additional`, is absent). */
  lemma RowRecordFields(row: Row, k: nat)
    requires RowAttendees(row).Ok? && k < |RowAttendees(row).value|
    ensures var a := RowAttendees(row).value[k];
      && a.firstName == PieceOr(Pieces(row[FirstNameColumn]), k)
      && a.lastName == PieceOr(Pieces(row[LastNameColumn]), k)
      && a.organisation == PieceOr(Pieces(row[OrganisationColumn]), k)
      && a.additional == (if AdditionalColumn in row then PieceOr(Pieces(row[AdditionalColumn]), k) else "")
  {
    var c := SplitColumns(row).value;
    PaddedColumnsAgree(c);
    var n := MaxLen(c);
    PadSpec(c.firstNames, n);
    PadSpec(c.lastNames, n);
    PadSpec(c.organisations, n);
    PadSpec(c.additionals, n);
    if k < |c.firstNames| { assert PadColumns(c).firstNames[k] == c.firstNames[k]; }
    if k < |c.lastNames| { assert PadColumns(c).lastNames[k] == c.lastNames[k]; }
    if k < |c.organisations| { assert PadColumns(c).organisations[k] == c.organisations[k]; }
    if k < |c.additionals| { assert PadColumns(c).additionals[k] == c.additionals[k]; }
  }

  /** Without an `additional` column every record's annotation is empty, and
      the count is set by the three mandatory columns alone (the default list
      is never the longest one). */
  lemma MissingAdditional(row: Row)
    requires RowAttendees(row).Ok? && AdditionalColumn !in row
    ensures var recs := RowAttendees(row).value;
      && |recs| == Max(Max(|Pieces(row[FirstNameColumn])|, |Pieces(row[LastNameColumn])|),
                       |Pieces(row[OrganisationColumn])|)
      && forall k :: 0 <= k < |recs| ==> recs[k].additional == ""
  {
    RowRecordCount(row);
    var recs := RowAttendees(row).value;
    forall k | 0 <= k < |recs| ensures recs[k].additional == "" {
      RowRecordFields(row, k);
    }
  }

  /** Every field of a record is trimmed and free of separators. */
  predicate Clean(a: Attendee) {
    && IsTrimmed(a.firstName) && Separator !in a.firstName
    && IsTrimmed(a.lastName) && Separator !in a.lastName
    && IsTrimmed(a.organisation) && Separator !in a.organisation
    && IsTrimmed(a.additional) && Separator !in a.additional
  }

  lemma PieceOrClean(field: string, k: nat)
    ensures IsTrimmed(PieceOr(Pieces(field), k)) && Separator !in PieceOr(Pieces(field), k)
  {
    var ps := Split(field);
    if k < |ps| {
      TrimSpec(ps[k]);
      TrimKeepsSeparatorFree(ps[k]);
    }
  }

  lemma RowRecordsClean(row: Row)
    requires RowAttendees(row).Ok?
    ensures forall a :: a in RowAttendees(row).value ==> Clean(a)
  {
    var recs := RowAttendees(row).value;
    forall k | 0 <= k < |recs| ensures Clean(recs[k]) {
      RowRecordFields(row, k);
      PieceOrClean(row[FirstNameColumn], k);
      PieceOrClean(row[LastNameColumn], k);
      PieceOrClean(row[OrganisationColumn], k);
      if AdditionalColumn in row {
        PieceOrClean(row[AdditionalColumn], k);
      }
    }
  }

  // ---------------------------------------------------------------------
  // Properties of the whole run
  // ---------------------------------------------------------------------

  /** Records of the rows concatenated in row order. */
  function Flatten(parts: seq<seq<Attendee>>): seq<Attendee>
    decreases |parts|
  {
    if |parts| == 0 then [] else Flatten(parts[..|parts| - 1]) + parts[|parts| - 1]
  }

  /** Every row has all its mandatory columns. */
  predicate AllRowsOk(rows: seq<Row>) {
    forall i :: 0 <= i < |rows| ==> RowAttendees(rows[i]).Ok?
  }

  /** The records of each row, row by row. */
  function RowRecords(rows: seq<Row>): seq<seq<Attendee>>
    requires AllRowsOk(rows)
  {
    seq(|rows|, i requires 0 <= i < |rows| && AllRowsOk(rows) => RowAttendees(rows[i]).value)
  }

  /** The run fails exactly when some row lacks a mandatory column; on success
      the result is the rows' records concatenated in row order. */
  lemma {:induction false} NormalizeSpec(rows: seq<Row>)
    ensures Normalize(rows).Ok? <==> AllRowsOk(rows)
    ensures Normalize(rows).Ok? ==> Normalize(rows).value == Flatten(RowRecords(rows))
    decreases |rows|
  {
    if |rows| > 0 {
      var n := |rows| - 1;
      var init, last := rows[..n], rows[n];
      ConcatSnoc([], rows);
      NormalizeSpec(init);
      NormalizeSnoc(init, last);
      AllRowsOkSnoc(rows);
      if AllRowsOk(rows) {
        RowRecordsSnoc(rows);
      }
    }
  }

  lemma AllRowsOkSnoc(rows: seq<Row>)
    requires |rows| > 0
    ensures AllRowsOk(rows) <==> AllRowsOk(rows[..|rows| - 1]) && RowAttendees(rows[|rows| - 1]).Ok?
  {
    var init := rows[..|rows| - 1];
    if AllRowsOk(init) && RowAttendees(rows[|rows| - 1]).Ok? {
      forall i | 0 <= i < |rows| ensures RowAttendees(rows[i]).Ok? {
        if i < |init| { assert rows[i] == init[i]; }
      }
    }
  }

  lemma RowRecordsSnoc(rows: seq<Row>)
    requires |rows| > 0 && AllRowsOk(rows)
    ensures AllRowsOk(rows[..|rows| - 1])
    ensures Flatten(RowRecords(rows))
         == Flatten(RowRecords(rows[..|rows| - 1])) + RowAttendees(rows[|rows| - 1]).value
  {
    var n := |rows| - 1;
    AllRowsOkSnoc(rows);
    var parts := RowRecords(rows);
    assert parts[..n] == RowRecords(rows[..n]);
  }

  /** A failed run reports the error of the first row that lacks a column. */
  lemma {:induction false} NormalizeFirstError(rows: seq<Row>, i: nat)
    requires i < |rows| && RowAttendees(rows[i]).Err?
    requires forall j :: 0 <= j < i ==> RowAttendees(rows[j]).Ok?
    ensures Normalize(rows) == RowAttendees(rows[i])
  {
    var prefix := rows[..i + 1];
    NormalizeSpec(prefix[..i]);
    assert prefix[..i] == rows[..i];
    NormalizeStopsAtError(rows, i + 1);
  }

  /** The output is only ever appended to: running over `a + b` gives the
      records of `a` followed by those of `b`. */
  lemma {:induction false} NormalizeAppend(a: seq<Row>, b: seq<Row>)
    requires Normalize(a).Ok? && Normalize(b).Ok?
    ensures Normalize(a + b) == Ok(Normalize(a).value + Normalize(b).value)
    decreases |b|
  {
    if |b| == 0 {
      assert a + b == a;
      assert Normalize(a).value + [] == Normalize(a).value;
    } else {
      var b', last := b[..|b| - 1], b[|b| - 1];
      ConcatSnoc(a, b);
      NormalizeSnoc(b', last);
      NormalizeAppend(a, b');
      NormalizeSnoc(a + b', last);
      ConcatAssoc(Normalize(a).value, Normalize(b').value, RowAttendees(last).value);
    }
  }

  /** Splitting off the last element of `b` in `a + b`. */
  lemma ConcatSnoc<T>(a: seq<T>, b: seq<T>)
    requires |b| > 0
    ensures b == b[..|b| - 1] + [b[|b| - 1]]
    ensures a + b == (a + b[..|b| - 1]) + [b[|b| - 1]]
  {
  }

  lemma ConcatAssoc<T>(x: seq<T>, y: seq<T>, z: seq<T>)
    ensures x + y + z == x + (y + z)
  {
  }

  /** One more row at the end succeeds exactly when the earlier rows and the
      new one do, and adds the new row's records at the end. */
  lemma NormalizeSnoc(rows: seq<Row>, row: Row)
    ensures Normalize(rows + [row]).Ok? <==> Normalize(rows).Ok? && RowAttendees(row).Ok?
    ensures Normalize(rows + [row]).Ok? ==>
      Normalize(rows + [row]).value == Normalize(rows).value + RowAttendees(row).value
  {
    assert (rows + [row])[..|rows|] == rows;
  }

  /** Every row yields at least one record, so there are at least as many
      records as rows, and every record is clean. */
  lemma {:induction false} NormalizeRecords(rows: seq<Row>)
    requires Normalize(rows).Ok?
    ensures |Normalize(rows).value| >= |rows|
    ensures forall a :: a in Normalize(rows).value ==> Clean(a)
    decreases |rows|
  {
    if |rows| > 0 {
      var init := rows[..|rows| - 1];
      NormalizeRecords(init);
      RowRecordCount(rows[|rows| - 1]);
      RowRecordsClean(rows[|rows| - 1]);
    }
  }
}

/** The two per-file jobs of `CSVProcessor` in `csvchecker.py`: duplicate
    removal over parsed rows, and cleaning every cell of what UTF-8 cannot
    encode. Both write a `.tmp` sibling row by row, replace the original with
    it at the end, and on any exception remove the temp file and print a
    message instead of raising. The processor object keeps no state these
    jobs use, so they are modelled as methods over the file system alone. */
module CsvChecker {
  import opened Files
  import opened Unique

  /** A Python string holds code points, lone surrogates included. */
  type CodePoint = c: int | 0 <= c < 0x11_0000

  /** One field of a row as the CSV reader returns it. */
  type Cell = seq<CodePoint>

  /** A parsed row; a blank line parses as the empty row. */
  type Row = seq<Cell>

  /** UTF-8 encodes every code point except the surrogates. */
  predicate Encodable(c: CodePoint) {
    !(0xD800 <= c <= 0xDFFF)
  }

  /** Text that UTF-8 can encode as it is. */
  ghost predicate ValidText(cell: Cell) {
    forall i :: 0 <= i < |cell| ==> Encodable(cell[i])
  }

  /** What the job printed; the methods never raise. */
  datatype Report = Silent | Printed(message: string)

  /** A job's report together with the file system it leaves behind. */
  datatype Outcome = Outcome(report: Report, store: Store<Row>)

  /** `cell.encode('utf-8', 'ignore').decode('utf-8')`: the cell without the
      code points UTF-8 cannot encode, in order. */
  function CleanCell(cell: Cell): (r: Cell)
    ensures |r| <= |cell|
    ensures ValidText(r)
    ensures ValidText(cell) ==> r == cell
  {
    if cell == [] then []
    else
      assert cell == [cell[0]] + cell[1..];
      (if Encodable(cell[0]) then [cell[0]] else []) + CleanCell(cell[1..])
  }

  /** A single code point is kept exactly when it is encodable. */
  lemma CleanCellSingle(c: CodePoint)
    ensures CleanCell([c]) == if Encodable(c) then [c] else []
  {
    assert [c][1..] == [];
  }

  /** Cleaning works left to right: the clean of a concatenation is the
      concatenation of the cleans. With `CleanCellSingle` and
      `CleanCellCounts` this makes the result the input with the
      surrogates removed and the rest in their order. */
  lemma {:induction false} CleanCellAppend(a: Cell, b: Cell)
    ensures CleanCell(a + b) == CleanCell(a) + CleanCell(b)
  {
    if a == [] {
      assert a + b == b;
    } else {
      var head: Cell := if Encodable(a[0]) then [a[0]] else [];
      assert (a + b)[0] == a[0];
      assert (a + b)[1..] == a[1..] + b;
      calc {
        CleanCell(a + b);
        head + CleanCell(a[1..] + b);
        { CleanCellAppend(a[1..], b); }
        head + (CleanCell(a[1..]) + CleanCell(b));
        (head + CleanCell(a[1..])) + CleanCell(b);
        CleanCell(a) + CleanCell(b);
      }
    }
  }

  /** Every encodable code point keeps its multiplicity, and every surrogate
      is dropped. */
  lemma {:induction false} CleanCellCounts(cell: Cell)
    ensures forall c :: multiset(CleanCell(cell))[c] == if Encodable(c) then multiset(cell)[c] else 0
  {
    if cell != [] {
      var head: Cell := if Encodable(cell[0]) then [cell[0]] else [];
      assert cell == [cell[0]] + cell[1..];
      CleanCellCounts(cell[1..]);
      assert multiset(CleanCell(cell)) == multiset(head) + multiset(CleanCell(cell[1..]));
    }
  }

  /** The list comprehension applied to one row. */
  function CleanRow(row: Row): Row {
    seq(|row|, j requires 0 <= j < |row| => CleanCell(row[j]))
  }

  /** Every row cleaned. */
  function CleanRows(rows: seq<Row>): seq<Row> {
    seq(|rows|, i requires 0 <= i < |rows| => CleanRow(rows[i]))
  }

  /** The rows the reader yields. Both jobs open the input and then the temp
      file for writing in one `with`; when the input's suffix is `.tmp` the
      two are the same file, which the second `open` truncates before
      anything is read. */
  function RowsRead(fs: Store<Row>, path: Path): (rows: seq<Row>)
    requires path in fs
    ensures TempOf(path) != path ==> rows == fs[path]
    ensures TempOf(path) == path ==> rows == []
  {
    if path.suffix == ".tmp" then [] else fs[path]
  }

  /** The text `_clean_file_chars` prints for an exception. */
  function CleanError(name: string, e: IoError): string {
    "error cleaning " + name + ": " + e.Text()
  }

  /** What `_clean_file_chars` does, given that the volume takes at most
      `room` more rows during the call. */
  function CleanEffect(fs: Store<Row>, path: Path, room: nat): Outcome {
    var temp := TempOf(path);
    if path !in fs then Outcome(Printed(CleanError(path.Name(), NotFound)), fs - {temp})
    else
      var out := CleanRows(RowsRead(fs, path));
      if |out| <= room then Outcome(Silent, Replace(fs[temp := out], temp, path))
      else Outcome(Printed(CleanError(path.Name(), NoSpace)), fs - {temp})
  }

  /** `_clean_file_chars(file_path)`: write every row, cleaned, to the temp
      file and replace the original with it. One row out per row in, each
      with as many cells as its input row; no header is treated apart. */
  method CleanFileChars(fs: Store<Row>, path: Path, room: nat) returns (report: Report, fs': Store<Row>)
    ensures Outcome(report, fs') == CleanEffect(fs, path, room)
    ensures report.Silent? ==> path in fs && path in fs' && |fs'[path]| == |RowsRead(fs, path)|
    ensures report.Silent? ==> var rows := RowsRead(fs, path);
      forall i :: 0 <= i < |rows| ==>
        |fs'[path][i]| == |rows[i]| &&
        forall j :: 0 <= j < |rows[i]| ==> fs'[path][i][j] == CleanCell(rows[i][j])
  {
    var temp := TempOf(path);
    if path !in fs {
      return Printed(CleanError(path.Name(), NotFound)), fs - {temp};
    }
    // the temp file is opened with the input; `written` is what it holds
    var rows := if path.suffix == ".tmp" then [] else fs[path];
    var written: seq<Row> := [];
    var i := 0;
    while i < |rows|
      invariant 0 <= i <= |rows|
      invariant written == CleanRows(rows[..i])
      invariant |written| <= room
    {
      var cleaned := seq(|rows[i]|, j requires 0 <= j < |rows[i]| => CleanCell(rows[i][j]));
      if |written| + 1 > room {
        return Printed(CleanError(path.Name(), NoSpace)), fs - {temp};
      }
      written := written + [cleaned];
      i := i + 1;
      assert written == CleanRows(rows[..i]);
    }
    assert rows[..i] == rows;
    fs' := Replace(fs[temp := written], temp, path);
    report := Silent;
  }

  /** Cleaning twice is cleaning once. */
  lemma CleanIdempotent(rows: seq<Row>)
    ensures CleanRows(CleanRows(rows)) == CleanRows(rows)
  {
    var once := CleanRows(rows);
    forall i | 0 <= i < |once|
      ensures CleanRow(once[i]) == once[i]
    {
      forall j | 0 <= j < |once[i]|
        ensures CleanCell(once[i][j]) == once[i][j]
      {
        assert once[i][j] == CleanCell(rows[i][j]);
      }
    }
  }

  /** An input whose suffix is `.tmp` is its own temp file: it is emptied
      before it is read, the job reports nothing, and no other file changes. */
  lemma CleanTmpInputEmptied(fs: Store<Row>, path: Path, room: nat)
    requires path in fs && path.suffix == ".tmp"
    ensures CleanEffect(fs, path, room) == Outcome(Silent, fs[path := []])
  {
    assert CleanRows([]) == [];
    assert Replace(fs[path := []], path, path) == fs[path := []];
  }

  /** A file whose cells are all valid text comes out of a successful clean
      as it went in; the temp file is gone and no other file changed. */
  lemma CleanValidUnchanged(fs: Store<Row>, path: Path, room: nat)
    requires path.suffix != ".tmp"
    requires path in fs
    requires forall i, j :: 0 <= i < |fs[path]| && 0 <= j < |fs[path][i]| ==> ValidText(fs[path][i][j])
    requires CleanEffect(fs, path, room).report.Silent?
    ensures CleanEffect(fs, path, room).store == fs - {TempOf(path)}
  {
    var rows := fs[path];
    var out := CleanRows(rows);
    forall i | 0 <= i < |rows|
      ensures out[i] == rows[i]
    {
      forall j | 0 <= j < |rows[i]|
        ensures out[i][j] == rows[i][j]
      {
        assert ValidText(rows[i][j]);
      }
    }
    assert out == rows;
  }

  /** On a failed clean the original is as it was, the temp file is gone, and
      the printed message reads `error cleaning {name}: ...`. */
  lemma CleanFailureKeepsOriginal(fs: Store<Row>, path: Path, room: nat)
    requires path.suffix != ".tmp"
    requires CleanEffect(fs, path, room).report.Printed?
    ensures var e := CleanEffect(fs, path, room);
      var prefix := "error cleaning " + path.Name() + ": ";
      && TempOf(path) !in e.store
      && (forall p :: p != TempOf(path) ==> (p in e.store <==> p in fs) && (p in fs ==> e.store[p] == fs[p]))
      && |e.report.message| > |prefix| && e.report.message[..|prefix|] == prefix
  {
    var e := CleanEffect(fs, path, room);
    assert e.store == fs - {TempOf(path)};
  }

  /** The first row goes out first unless it is missing or empty: `if
      header:` is false for both. */
  function HeaderPart(rows: seq<Row>): (h: seq<Row>)
    ensures |h| <= 1
    ensures h == [] <==> rows == [] || rows[0] == []
    ensures h != [] ==> h[0] == rows[0]
  {
    if rows != [] && rows[0] != [] then [rows[0]] else []
  }

  /** The rows `_remove_duplicate_rows` writes as the code stands: the first
      row when it is not empty, then the first occurrence of every later row.
      The first row is never put in `seen`. */
  function DedupRowsAsWritten(rows: seq<Row>): seq<Row> {
    if rows == [] then [] else HeaderPart(rows) + FirstOccurrences(rows[1..])
  }

  /** The rule the code evidently intends (`if header is not None`): the
      first row always goes out, then the first occurrence of every later
      row. */
  function DedupRows(rows: seq<Row>): seq<Row> {
    if rows == [] then [] else [rows[0]] + FirstOccurrences(rows[1..])
  }

  /** The text `_remove_duplicate_rows` prints for an exception. */
  function DedupError(name: string, e: IoError): string {
    "error processing " + name + ": " + e.Text()
  }

  /** What `_remove_duplicate_rows` does, given that the volume takes at most
      `room` more rows during the call. */
  function DedupEffect(fs: Store<Row>, path: Path, room: nat): Outcome {
    var temp := TempOf(path);
    if path !in fs then Outcome(Printed(DedupError(path.Name(), NotFound)), fs - {temp})
    else
      var out := DedupRowsAsWritten(RowsRead(fs, path));
      if |out| <= room then Outcome(Silent, Replace(fs[temp := out], temp, path))
      else Outcome(Printed(DedupError(path.Name(), NoSpace)), fs - {temp})
  }

  /** The row scan's state after `i` later rows: `seen` holds them, and
      the rows written are the header part and their first occurrences. */
  ghost predicate RowsScanned(rows: seq<Row>, i: nat, seen: set<Row>, written: seq<Row>) {
    && rows != [] && i <= |rows| - 1
    && seen == Elements(rows[1..][..i])
    && written == HeaderPart(rows) + FirstOccurrences(rows[1..][..i])
  }

  /** Scanning row `i + 1`: a seen row is skipped, an unseen one joins
      `seen` and is written. */
  lemma ScanRow(rows: seq<Row>, i: nat, seen: set<Row>, written: seq<Row>)
    requires RowsScanned(rows, i, seen, written) && i < |rows| - 1
    ensures rows[i + 1] in seen ==> RowsScanned(rows, i + 1, seen, written)
    ensures rows[i + 1] !in seen ==> RowsScanned(rows, i + 1, seen + {rows[i + 1]}, written + [rows[i + 1]])
  {
    ScanStep(rows[1..], i, seen);
  }

  /** What has been written never exceeds the final output, and after the
      last row it is the final output. */
  lemma RowsScannedBound(rows: seq<Row>, i: nat, seen: set<Row>, written: seq<Row>)
    requires RowsScanned(rows, i, seen, written)
    ensures |written| <= |DedupRowsAsWritten(rows)|
    ensures i == |rows| - 1 ==> written == DedupRowsAsWritten(rows)
  {
    FirstOccurrencesPrefix(rows[1..], i);
    if i == |rows| - 1 {
      assert rows[1..][..i] == rows[1..];
    }
  }

  /** The `with` block of `_remove_duplicate_rows`: `writerow` the header
      when it is not empty, then every row whose tuple is not yet in `seen`.
      `ok` is false when a row does not fit. */
  method WriteUniqueRows(rows: seq<Row>, room: nat) returns (ok: bool, written: seq<Row>)
    requires rows != []
    ensures ok <==> |DedupRowsAsWritten(rows)| <= room
    ensures ok ==> written == DedupRowsAsWritten(rows)
  {
    written := HeaderPart(rows);
    var seen: set<Row> := {};
    assert rows[1..][..0] == [];
    if |written| > room {
      RowsScannedBound(rows, 0, seen, written);
      return false, written;
    }
    var i := 0;
    while i < |rows| - 1
      invariant RowsScanned(rows, i, seen, written)
      invariant |written| <= room
    {
      var row := rows[i + 1];
      ScanRow(rows, i, seen, written);
      if row !in seen {
        seen := seen + {row};
        if |written| + 1 > room {
          RowsScannedBound(rows, i + 1, seen, written + [row]);
          return false, written;
        }
        written := written + [row];
      }
      i := i + 1;
    }
    RowsScannedBound(rows, i, seen, written);
    ok := true;
  }

  /** `_remove_duplicate_rows(file_path)`: write the deduplicated rows to the
      temp file and replace the original with it; on any exception remove the
      temp file and print `error processing {name}: e`. */
  method RemoveDuplicateRows(fs: Store<Row>, path: Path, room: nat) returns (report: Report, fs': Store<Row>)
    ensures Outcome(report, fs') == DedupEffect(fs, path, room)
  {
    var temp := TempOf(path);
    if path !in fs {
      return Printed(DedupError(path.Name(), NotFound)), fs - {temp};
    }
    // the temp file is opened with the input; `written` is what it holds
    var rows := if path.suffix == ".tmp" then [] else fs[path];
    var ok := true;
    var written: seq<Row> := [];
    if rows != [] {
      ok, written := WriteUniqueRows(rows, room);
    }
    if !ok {
      return Printed(DedupError(path.Name(), NoSpace)), fs - {temp};
    }
    fs' := Replace(fs[temp := written], temp, path);
    report := Silent;
  }

  /** What follows the first `k` rows of `out` when that is the first
      occurrences of the later rows: each later row once, none twice, in
      first-occurrence order, a later row equal to the first one included. */
  lemma KeptAfter(rows: seq<Row>, out: seq<Row>, k: nat)
    requires rows != [] && k <= |out| && out[k..] == FirstOccurrences(rows[1..])
    ensures Distinct(out[k..])
    ensures forall x :: x in out[k..] <==> x in rows[1..]
    ensures forall i, j :: k <= i < j < |out| ==> FirstIndex(rows[1..], out[i]) < FirstIndex(rows[1..], out[j])
    ensures rows[0] in rows[1..] ==> rows[0] in out[k..]
  {
    var kept := out[k..];
    FirstOccurrencesDistinct(rows[1..]);
    FirstOccurrencesMembers(rows[1..]);
    FirstOccurrencesOrdered(rows[1..]);
    forall i, j | k <= i < j < |out|
      ensures FirstIndex(rows[1..], out[i]) < FirstIndex(rows[1..], out[j])
    {
      assert out[i] == kept[i - k] && out[j] == kept[j - k];
    }
  }

  /** The replaced file: the first row first when it is not empty, and
      dropped when it is; after it every later row exactly once, none twice,
      in the order of first occurrence; a later row equal to the first row
      stays. The temp file is gone, no other file changed. */
  lemma DedupOutput(fs: Store<Row>, path: Path, room: nat)
    requires path.suffix != ".tmp"
    requires path in fs && fs[path] != []
    requires DedupEffect(fs, path, room).report.Silent?
    ensures var e := DedupEffect(fs, path, room);
      var rows := fs[path];
      var k := if rows[0] == [] then 0 else 1;
      && path in e.store && TempOf(path) !in e.store
      && |e.store[path]| >= k && e.store[path][..k] == rows[..k]
      && Distinct(e.store[path][k..])
      && (forall x :: x in e.store[path][k..] <==> x in rows[1..])
      && (forall i, j :: k <= i < j < |e.store[path]| ==>
            FirstIndex(rows[1..], e.store[path][i]) < FirstIndex(rows[1..], e.store[path][j]))
      && (rows[0] in rows[1..] ==> rows[0] in e.store[path][k..])
      && (forall p :: p != path && p != TempOf(path) ==> (p in e.store <==> p in fs) && (p in fs ==> e.store[p] == fs[p]))
  {
    var rows := fs[path];
    assert RowsRead(fs, path) == rows;
    var e := DedupEffect(fs, path, room);
    assert e.store == Replace(fs[TempOf(path) := DedupRowsAsWritten(rows)], TempOf(path), path);
    DedupRowsAsWrittenShape(rows);
  }

  /** The rows as written: the first `k` are the first row when it is not
      empty, and the rest are the first occurrences of the later rows. */
  lemma DedupRowsAsWrittenShape(rows: seq<Row>)
    requires rows != []
    ensures var out := DedupRowsAsWritten(rows);
      var k := if rows[0] == [] then 0 else 1;
      && |out| >= k && out[..k] == rows[..k]
      && Distinct(out[k..])
      && (forall x :: x in out[k..] <==> x in rows[1..])
      && (forall i, j :: k <= i < j < |out| ==> FirstIndex(rows[1..], out[i]) < FirstIndex(rows[1..], out[j]))
      && (rows[0] in rows[1..] ==> rows[0] in out[k..])
  {
    var out := DedupRowsAsWritten(rows);
    var kept := FirstOccurrences(rows[1..]);
    if rows[0] == [] {
      assert out == kept;
      KeptAfter(rows, out, 0);
    } else {
      assert out == [rows[0]] + kept;
      assert out[..1] == rows[..1];
      KeptAfter(rows, out, 1);
    }
  }

  /** An input whose suffix is `.tmp` is its own temp file: it is emptied
      before it is read, the job reports nothing, and no other file changes. */
  lemma DedupTmpInputEmptied(fs: Store<Row>, path: Path, room: nat)
    requires path in fs && path.suffix == ".tmp"
    ensures DedupEffect(fs, path, room) == Outcome(Silent, fs[path := []])
  {
    assert Replace(fs[path := []], path, path) == fs[path := []];
  }

  /** On a failed dedup the original is as it was, the temp file is gone, and
      the printed message reads `error processing {name}: ...`. */
  lemma DedupFailureKeepsOriginal(fs: Store<Row>, path: Path, room: nat)
    requires path.suffix != ".tmp"
    requires DedupEffect(fs, path, room).report.Printed?
    ensures var e := DedupEffect(fs, path, room);
      var prefix := "error processing " + path.Name() + ": ";
      && TempOf(path) !in e.store
      && (forall p :: p != TempOf(path) ==> (p in e.store <==> p in fs) && (p in fs ==> e.store[p] == fs[p]))
      && |e.report.message| > |prefix| && e.report.message[..|prefix|] == prefix
  {
    var e := DedupEffect(fs, path, room);
    assert e.store == fs - {TempOf(path)};
  }

  /** With the intended rule, deduplicating rows twice is deduplicating them
      once. */
  lemma DedupRowsIdempotent(rows: seq<Row>)
    ensures DedupRows(DedupRows(rows)) == DedupRows(rows)
  {
    if rows != [] {
      var out := DedupRows(rows);
      assert out[1..] == FirstOccurrences(rows[1..]);
      FirstOccurrencesIdempotent(rows[1..]);
    }
  }

  /** Two blank lines at the top: the first is dropped as the header, the
      second is kept as data and becomes the next run's header. */
  predicate BlankTop(rows: seq<Row>) {
    |rows| >= 2 && rows[0] == [] && rows[1] == []
  }

  /** Deduplicating rows without repeats, minus their first, changes
      nothing. */
  lemma DistinctTail(s: seq<Row>)
    requires s != [] && Distinct(s)
    ensures FirstOccurrences(s[1..]) == s[1..]
  {
    var tail := s[1..];
    forall i, j | 0 <= i < j < |tail|
      ensures tail[i] != tail[j]
    {
      assert tail[i] == s[i + 1] && tail[j] == s[j + 1];
    }
    FirstOccurrencesFixpoint(tail);
  }

  /** A file that starts with a blank row: one run writes the first
      occurrences of the later rows, and a second run changes that exactly
      when the next row is blank too. */
  lemma BlankHeaderRerun(rows: seq<Row>)
    requires |rows| >= 2 && rows[0] == []
    ensures DedupRowsAsWritten(rows) == FirstOccurrences(rows[1..])
    ensures DedupRowsAsWritten(DedupRowsAsWritten(rows)) == DedupRowsAsWritten(rows) <==> rows[1] != []
  {
    var data := rows[1..];
    var out := FirstOccurrences(data);
    assert HeaderPart(rows) == [];
    assert DedupRowsAsWritten(rows) == out;
    FirstOccurrencesHead(data);
    FirstOccurrencesDistinct(data);
    DistinctTail(out);
    var again := DedupRowsAsWritten(out);
    assert again == HeaderPart(out) + out[1..];
    if rows[1] == [] {
      assert |again| < |out|;
    } else {
      assert HeaderPart(out) == [out[0]];
      assert again == out;
    }
  }

  /** As written, the dedup never lengthens its input, and it is idempotent
      exactly when the file does not start with two blank lines. */
  lemma DedupRowsAsWrittenIdempotentIff(rows: seq<Row>)
    ensures |DedupRowsAsWritten(rows)| <= |rows|
    ensures DedupRowsAsWritten(DedupRowsAsWritten(rows)) == DedupRowsAsWritten(rows) <==> !BlankTop(rows)
  {
    if rows != [] {
      FirstOccurrencesLength(rows[1..]);
      if rows[0] != [] {
        AsWrittenAgreesOnNonEmptyHeader(rows);
      } else if |rows| >= 2 {
        BlankHeaderRerun(rows);
      } else {
        assert rows[1..] == [];
      }
    }
  }

  /** Running the dedup on its own output succeeds, and it changes nothing
      exactly when the file did not start with two blank lines. */
  lemma DedupIdempotent(fs: Store<Row>, path: Path, room: nat)
    requires path.suffix != ".tmp"
    requires DedupEffect(fs, path, room).report.Silent?
    ensures var e1 := DedupEffect(fs, path, room);
      var e2 := DedupEffect(e1.store, path, room);
      && e2.report.Silent?
      && (e2.store == e1.store <==> !BlankTop(fs[path]))
  {
    var e1 := DedupEffect(fs, path, room);
    var out := DedupRowsAsWritten(fs[path]);
    DedupRowsAsWrittenIdempotentIff(fs[path]);
    DedupRowsAsWrittenIdempotentIff(out);
    var fs1 := e1.store;
    assert fs1[path] == out && TempOf(path) !in fs1;
    if !BlankTop(fs[path]) {
      assert Replace(fs1[TempOf(path) := out], TempOf(path), path) == fs1;
    } else {
      var e2 := DedupEffect(fs1, path, room);
      assert e2.store == Replace(fs1[TempOf(path) := DedupRowsAsWritten(out)], TempOf(path), path);
      assert e2.store[path] != fs1[path];
    }
  }

  /** As written, a blank first line is dropped, and running the dedup on its
      own output can drop one more: rows [], [], ["a"] become [], ["a"] and
      then ["a"]; with the intended rule they stay. */
  lemma BlankHeaderBreaksIdempotence()
    ensures var a: Row := [[0x61]];
      && DedupRowsAsWritten([[], [], a]) == [[], a]
      && DedupRowsAsWritten(DedupRowsAsWritten([[], [], a])) == [a]
      && DedupRows([[], [], a]) == [[], [], a]
  {
    var a: Row := [[0x61]];
    var s: seq<Row> := [[], a];
    assert s[..1] == [[]];
    assert FirstOccurrences(s[..1]) == [[]] by {
      assert s[..1][..0] == [];
    }
    assert FirstOccurrences(s) == [[], a];
    assert [[], [], a][1..] == s;
    assert DedupRowsAsWritten([[], a]) == FirstOccurrences([a]);
    assert FirstOccurrences([a]) == [a] by {
      assert [a][..0] == [];
    }
  }

  /** The two rules agree whenever the first row is not empty. */
  lemma AsWrittenAgreesOnNonEmptyHeader(rows: seq<Row>)
    requires rows != [] && rows[0] != []
    ensures DedupRowsAsWritten(rows) == DedupRows(rows)
    ensures DedupRowsAsWritten(DedupRowsAsWritten(rows)) == DedupRowsAsWritten(rows)
  {
    DedupRowsIdempotent(rows);
  }
}

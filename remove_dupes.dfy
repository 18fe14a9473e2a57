/** Line-level duplicate removal of `funcs/remove_dupes.py`: the standard
    library engine (a scan with a `seen` set, two counters and a write batch,
    through a temp file), the dataframe engine (rewrite only when something
    was dropped) and the engine dispatch. */
module RemoveDupes {
  import opened Files
  import opened Unique

  /** `(file_path.name, total_rows, unique_rows)`. */
  datatype DedupStats = DedupStats(name: string, total: nat, unique: nat)

  /** Kept lines are flushed to the temp file every `BatchSize` lines. */
  const BatchSize: nat := 1000

  /** The deduplicated file: the header as it is, then the first occurrence of
      every later line. The header is never put in `seen`, so a data line equal
      to it stays. */
  function Deduplicated(lines: seq<Line>): seq<Line> {
    if lines == [] then [] else [lines[0]] + FirstOccurrences(lines[1..])
  }

  /** What `stdlib` does to the file system and what it returns or raises,
      given that the volume takes at most `room` more lines during the call. */
  function StdlibEffect(fs: Store<Line>, path: Path, room: nat): Effect<DedupStats, Line> {
    var temp := TempOf(path);
    if path !in fs then
      // `open` raises; the handler removes a temp file if one is there
      Effect(Err(ErrorFor(path.Name(), NotFound)), fs - {temp})
    else
      var lines := fs[path];
      if lines == [] then
        Effect(Ok(DedupStats(path.Name(), 0, 0)), fs)
      else
        var out := Deduplicated(lines);
        if |out| <= room then
          Effect(Ok(DedupStats(path.Name(), |lines| - 1, |out| - 1)), Replace(fs[temp := out], temp, path))
        else
          Effect(Err(ErrorFor(path.Name(), NoSpace)), fs - {temp})
  }

  /** The scan's state after `i` data lines: `seen` holds them, and the
      lines written plus the pending batch are the header and their first
      occurrences. */
  ghost predicate Scanned(lines: seq<Line>, i: nat, seen: set<Line>, written: seq<Line>, batch: seq<Line>) {
    && lines != [] && i <= |lines| - 1
    && seen == Elements(lines[1..][..i])
    && written + batch == [lines[0]] + FirstOccurrences(lines[1..][..i])
  }

  /** Scanning data line `i`: a seen line is skipped, an unseen one joins
      `seen` and the batch. */
  lemma ScanLine(lines: seq<Line>, i: nat, seen: set<Line>, written: seq<Line>, batch: seq<Line>)
    requires Scanned(lines, i, seen, written, batch) && i < |lines| - 1
    ensures lines[i + 1] in seen ==> Scanned(lines, i + 1, seen, written, batch)
    ensures lines[i + 1] !in seen ==> Scanned(lines, i + 1, seen + {lines[i + 1]}, written, batch + [lines[i + 1]])
  {
    var data := lines[1..];
    ScanStep(data, i, seen);
    assert written + (batch + [data[i]]) == (written + batch) + [data[i]];
  }

  /** What has been written or batched never exceeds the final output, and
      after the last line it is the final output. */
  lemma ScannedBound(lines: seq<Line>, i: nat, seen: set<Line>, written: seq<Line>, batch: seq<Line>)
    requires Scanned(lines, i, seen, written, batch)
    ensures |written| + |batch| <= |Deduplicated(lines)|
    ensures i == |lines| - 1 ==> written + batch == Deduplicated(lines)
  {
    FirstOccurrencesPrefix(lines[1..], i);
    if i == |lines| - 1 {
      assert lines[1..][..i] == lines[1..];
    }
  }

  /** The `with open(temp, 'w')` block of `stdlib`: write the header, then
      scan the data lines with `seen` and a counter, collecting the unseen ones
      in a batch that is written out whenever it holds `BatchSize` lines and
      once more at the end. `ok` is false when a write does not fit; the
      batching leaves the written content as the specification says. */
  method WriteUnique(lines: seq<Line>, room: nat) returns (ok: bool, written: seq<Line>, uniqueRows: nat)
    requires lines != []
    ensures ok <==> |Deduplicated(lines)| <= room
    ensures ok ==> written == Deduplicated(lines) && uniqueRows == |Elements(lines[1..])|
  {
    var header := lines[0];
    written := [];
    uniqueRows := 0;
    if 1 > room {
      return false, written, uniqueRows;
    }
    written := [header];
    var seen: set<Line> := {};
    var batch: seq<Line> := [];
    assert lines[1..][..0] == [];
    var i := 0;
    while i < |lines| - 1
      invariant Scanned(lines, i, seen, written, batch)
      invariant uniqueRows + 1 == |written| + |batch|
      invariant |written| <= room && |batch| < BatchSize
    {
      var line := lines[i + 1];
      ScanLine(lines, i, seen, written, batch);
      if line !in seen {
        seen := seen + {line};
        batch := batch + [line];
        uniqueRows := uniqueRows + 1;
        if |batch| >= BatchSize {
          if |written| + |batch| > room {
            ScannedBound(lines, i + 1, seen, written, batch);
            return false, written, uniqueRows;
          }
          written := written + batch;
          batch := [];
          assert written + batch == written;
        }
      }
      i := i + 1;
    }
    ScannedBound(lines, i, seen, written, batch);
    FirstOccurrencesCount(lines[1..]);
    if batch != [] {
      if |written| + |batch| > room {
        return false, written, uniqueRows;
      }
      written := written + batch;
    }
    ok := true;
  }

  /** `stdlib(file_path)`: read all lines, write the header and then the
      unseen lines in batches to the temp file, and replace the original with
      it; on any exception remove the temp file and raise `error {name}: e`. */
  method Stdlib(fs: Store<Line>, path: Path, room: nat) returns (r: Result<DedupStats>, fs': Store<Line>)
    ensures Effect(r, fs') == StdlibEffect(fs, path, room)
  {
    var temp := TempOf(path);
    if path !in fs {
      return Err(ErrorFor(path.Name(), NotFound)), fs - {temp};
    }
    var lines := fs[path];
    if lines == [] {
      return Ok(DedupStats(path.Name(), 0, 0)), fs;
    }
    var totalRows := |lines| - 1;
    var ok, written, uniqueRows := WriteUnique(lines, room);
    if !ok {
      return Err(ErrorFor(path.Name(), NoSpace)), fs - {temp};
    }
    FirstOccurrencesCount(lines[1..]);
    fs' := Replace(fs[temp := written], temp, path);
    r := Ok(DedupStats(path.Name(), totalRows, uniqueRows));
  }

  /** What `polars` does: a dataframe read of the whole file (which raises on
      a missing or empty file), order-preserving `unique`, and a rewrite of
      the original in place only when rows were dropped. There is no temp
      file: a write that the volume cannot take leaves the original truncated. */
  function Polars(fs: Store<Line>, path: Path, room: nat): (e: Effect<DedupStats, Line>)
    ensures path !in fs || fs[path] == [] <==> e.result.Err? && e.store == fs
    ensures e.result.Ok? ==> e.result.value.unique <= e.result.value.total == |fs[path]| - 1
    ensures e.result.Ok? ==> path in e.store && |e.store[path]| == e.result.value.unique + 1
    ensures e.result.Ok? && e.store[path] != fs[path] ==> e.result.value.unique < e.result.value.total
    ensures e.result.Err? && path in fs && fs[path] != [] ==> e.store == fs[path := []]
    ensures forall p :: p != path ==> (p in e.store <==> p in fs) && (p in fs ==> e.store[p] == fs[p])
  {
    if path !in fs then Effect(Err(NotFound.Text()), fs)
    else if fs[path] == [] then Effect(Err(NoData.Text()), fs)
    else
      var lines := fs[path];
      var out := Deduplicated(lines);
      FirstOccurrencesLength(lines[1..]);
      var stats := DedupStats(path.Name(), |lines| - 1, |out| - 1);
      if stats.total == stats.unique then Effect(Ok(stats), fs)
      else if |out| <= room then Effect(Ok(stats), fs[path := out])
      else Effect(Err(NoSpace.Text()), fs[path := []])
  }

  /** `process(file_path, engine)`. The GPU function lives in a module that is
      not part of this model, so its effect is given as `gpu`. */
  method Process(fs: Store<Line>, path: Path, engine: string, room: nat, gpu: Effect<DedupStats, Line>)
    returns (r: Result<DedupStats>, fs': Store<Line>)
    ensures Select(engine) == Gpu ==> Effect(r, fs') == gpu
    ensures Select(engine) == Columnar ==> Effect(r, fs') == Polars(fs, path, room)
    ensures Select(engine) == Naive ==> Effect(r, fs') == StdlibEffect(fs, path, room)
  {
    match Select(engine)
    case Gpu =>
      r, fs' := gpu.result, gpu.store;
    case Columnar =>
      var e := Polars(fs, path, room);
      r, fs' := e.result, e.store;
    case Naive =>
      r, fs' := Stdlib(fs, path, room);
  }

  /** The counts `stdlib` returns: the data lines (all but the header) and the
      distinct data lines, which are also the lines written after the header.
      An empty file is reported as (0, 0) and left as it is. */
  lemma StdlibCounts(fs: Store<Line>, path: Path, room: nat)
    requires StdlibEffect(fs, path, room).result.Ok?
    ensures path in fs
    ensures var e := StdlibEffect(fs, path, room);
      var lines := fs[path];
      var s := e.result.value;
      && s.name == path.Name()
      && (lines == [] ==> s.total == 0 && s.unique == 0 && e.store == fs)
      && (lines != [] ==>
           && s.total == |lines| - 1
           && s.unique == |Elements(lines[1..])|
           && s.unique <= s.total
           && path in e.store && |e.store[path]| == s.unique + 1)
  {
    var lines := fs[path];
    if lines != [] {
      FirstOccurrencesCount(lines[1..]);
      FirstOccurrencesLength(lines[1..]);
    }
  }

  /** `stdlib` succeeds exactly when the file exists and, unless it is empty,
      the volume takes the header and one copy of every distinct data line. */
  lemma StdlibSucceedsIff(fs: Store<Line>, path: Path, room: nat)
    ensures StdlibEffect(fs, path, room).result.Ok? <==>
      path in fs && (fs[path] == [] || 1 + |Elements(fs[path][1..])| <= room)
  {
    if path in fs && fs[path] != [] {
      FirstOccurrencesCount(fs[path][1..]);
    }
  }

  /** The replaced file: the header first, then every data line once, no line
      twice, in the order of first occurrence; the temp file is gone and no
      other file changed. */
  lemma StdlibOutput(fs: Store<Line>, path: Path, room: nat)
    requires path.suffix != ".tmp"
    requires path in fs && fs[path] != []
    requires StdlibEffect(fs, path, room).result.Ok?
    ensures var e := StdlibEffect(fs, path, room);
      var lines := fs[path];
      && path in e.store && TempOf(path) !in e.store
      && |e.store[path]| >= 1 && e.store[path][0] == lines[0]
      && Distinct(e.store[path][1..])
      && (forall x :: x in e.store[path][1..] <==> x in lines[1..])
      && (forall i, j :: 1 <= i < j < |e.store[path]| ==>
            FirstIndex(lines[1..], e.store[path][i]) < FirstIndex(lines[1..], e.store[path][j]))
      && (forall p :: p != path && p != TempOf(path) ==> (p in e.store <==> p in fs) && (p in fs ==> e.store[p] == fs[p]))
  {
    var lines := fs[path];
    var e := StdlibEffect(fs, path, room);
    var kept := FirstOccurrences(lines[1..]);
    assert e.store[path] == [lines[0]] + kept;
    assert e.store[path][1..] == kept;
    FirstOccurrencesDistinct(lines[1..]);
    FirstOccurrencesMembers(lines[1..]);
    FirstOccurrencesOrdered(lines[1..]);
    forall i, j | 1 <= i < j < |e.store[path]|
      ensures FirstIndex(lines[1..], e.store[path][i]) < FirstIndex(lines[1..], e.store[path][j])
    {
      assert e.store[path][i] == kept[i - 1] && e.store[path][j] == kept[j - 1];
    }
  }

  /** On any failure the temp file is gone, every other file (the original
      included) is as it was, and the exception reads `error {name}: ...`. */
  lemma StdlibFailureKeepsOriginal(fs: Store<Line>, path: Path, room: nat)
    requires path.suffix != ".tmp"
    requires StdlibEffect(fs, path, room).result.Err?
    ensures var e := StdlibEffect(fs, path, room);
      var prefix := "error " + path.Name() + ": ";
      && TempOf(path) !in e.store
      && (path in e.store <==> path in fs)
      && (path in fs ==> e.store[path] == fs[path])
      && (forall p :: p != TempOf(path) ==> (p in e.store <==> p in fs) && (p in fs ==> e.store[p] == fs[p]))
      && |e.result.message| > |prefix| && e.result.message[..|prefix|] == prefix
  {
    var e := StdlibEffect(fs, path, room);
    assert e.store == fs - {TempOf(path)};
  }

  /** Running `stdlib` on its own output succeeds, changes nothing, and finds
      no duplicate (`unique_rows == total_rows`). */
  lemma StdlibIdempotent(fs: Store<Line>, path: Path, room: nat)
    requires path.suffix != ".tmp"
    requires StdlibEffect(fs, path, room).result.Ok?
    ensures var e1 := StdlibEffect(fs, path, room);
      var e2 := StdlibEffect(e1.store, path, room);
      && e2.result.Ok?
      && e2.store == e1.store
      && e2.result.value.total == e2.result.value.unique == e1.result.value.unique
  {
    var lines := fs[path];
    var e1 := StdlibEffect(fs, path, room);
    if lines != [] {
      var out := Deduplicated(lines);
      var temp := TempOf(path);
      assert e1.store[path] == out;
      assert out[1..] == FirstOccurrences(lines[1..]);
      FirstOccurrencesIdempotent(lines[1..]);
      assert Deduplicated(out) == out;
      var fs1 := e1.store;
      assert temp !in fs1;
      assert Replace(fs1[temp := out], temp, path) == fs1;
    }
  }

  /** The dataframe engine rewrites the file exactly when rows were dropped;
      it returns the same counts as the line engine would; every other file is
      left alone. */
  lemma PolarsRewritesIffDuplicates(fs: Store<Line>, path: Path, room: nat)
    requires Polars(fs, path, room).result.Ok?
    ensures path in fs && fs[path] != []
    ensures var e := Polars(fs, path, room);
      var lines := fs[path];
      var s := e.result.value;
      && s == DedupStats(path.Name(), |lines| - 1, |Elements(lines[1..])|)
      && path in e.store
      && (e.store[path] == lines <==> s.total == s.unique)
      && (s.total == s.unique <==> Distinct(lines[1..]))
      && e.store[path] == Deduplicated(lines)
      && (forall p :: p != path ==> (p in e.store <==> p in fs) && (p in fs ==> e.store[p] == fs[p]))
  {
    var lines := fs[path];
    FirstOccurrencesCount(lines[1..]);
    FirstOccurrencesLength(lines[1..]);
    FirstOccurrencesFixpoint(lines[1..]);
    if Distinct(lines[1..]) {
      assert Deduplicated(lines) == lines;
    } else {
      assert |Deduplicated(lines)| < |lines|;
    }
  }

  /** Both engines agree on a non-empty file the volume can take: same counts
      and the same content afterwards. */
  lemma EnginesAgree(fs: Store<Line>, path: Path, room: nat)
    requires path.suffix != ".tmp"
    requires path in fs && fs[path] != [] && |Deduplicated(fs[path])| <= room
    ensures StdlibEffect(fs, path, room).result.Ok? && Polars(fs, path, room).result.Ok?
    ensures StdlibEffect(fs, path, room).result == Polars(fs, path, room).result
    ensures StdlibEffect(fs, path, room).store[path] == Polars(fs, path, room).store[path]
  {
    var lines := fs[path];
    var out := Deduplicated(lines);
    var stats := DedupStats(path.Name(), |lines| - 1, |out| - 1);
    assert StdlibEffect(fs, path, room) == Effect(Ok(stats), Replace(fs[TempOf(path) := out], TempOf(path), path));
    FirstOccurrencesLength(lines[1..]);
    FirstOccurrencesFixpoint(lines[1..]);
    if stats.total == stats.unique {
      assert out == lines;
      assert Polars(fs, path, room) == Effect(Ok(stats), fs);
    } else {
      assert Polars(fs, path, room) == Effect(Ok(stats), fs[path := out]);
    }
  }

  /** Where the line engine keeps the original on a failed write, the
      dataframe engine, which writes in place, leaves it truncated. */
  lemma PolarsFailureLosesOriginal(fs: Store<Line>, path: Path, room: nat)
    requires path.suffix != ".tmp"
    requires path in fs && fs[path] != [] && !Distinct(fs[path][1..])
    requires room < |Deduplicated(fs[path])|
    ensures Polars(fs, path, room).result.Err? && Polars(fs, path, room).store[path] == []
    ensures StdlibEffect(fs, path, room).result.Err? && StdlibEffect(fs, path, room).store[path] == fs[path]
  {
    FirstOccurrencesLength(fs[path][1..]);
  }
}

/** Row-count splitting of `funcs/split_csv.py`: the standard library engine
    (a buffer of data lines flushed into a numbered chunk file whenever it is
    full), the dataframe engine (slices at offsets 0, r, 2r, ...) and the
    engine dispatch. Every chunk file starts with the header line. */
module SplitCsv {
  import opened Files
  import opened Decimal

  /** `(file_path.name, chunks)`. */
  datatype SplitStats = SplitStats(name: string, chunks: nat)

  /** The data lines cut into consecutive chunks of `cap` lines, the last one
      holding what is left. */
  function Chunks(s: seq<Line>, cap: nat): seq<seq<Line>>
    requires cap >= 1
    decreases |s|
  {
    if s == [] then []
    else if |s| <= cap then [s]
    else [s[..cap]] + Chunks(s[cap..], cap)
  }

  function Concat(cs: seq<seq<Line>>): seq<Line> {
    if cs == [] then [] else cs[0] + Concat(cs[1..])
  }

  /** The chunk size `stdlib` ends up with: it flushes once the buffer holds
      `rows_per_chunk` lines, which for a value below 1 is after every line. */
  function Cap(rowsPerChunk: int): (c: nat)
    ensures c >= 1
  {
    if rowsPerChunk < 1 then 1 else rowsPerChunk
  }

  /** `output_dir / f"{base_name}_part_{chunk_num:04d}.csv"`. */
  function ChunkPath(dir: string, stem: string, n: nat): Path {
    Path(dir, stem + "_part_" + Pad4(n), ".csv")
  }

  /** The names chunk files of `stem` can have in `dir`. */
  predicate IsChunkPath(p: Path, dir: string, stem: string) {
    && p.dir == dir
    && p.suffix == ".csv"
    && |p.stem| >= |stem| + 6
    && p.stem[..|stem| + 6] == stem + "_part_"
  }

  /** The chunk files numbered 1 to n. */
  function ChunkPaths(dir: string, stem: string, n: nat): set<Path> {
    set k | 1 <= k <= n :: ChunkPath(dir, stem, k)
  }

  /** No file other than a chunk file of `stem` in `dir` was created, removed
      or changed. */
  ghost predicate SameOutside(fs: Store<Line>, fs': Store<Line>, dir: string, stem: string) {
    forall p :: !IsChunkPath(p, dir, stem) ==> (p in fs' <==> p in fs) && (p in fs ==> fs'[p] == fs[p])
  }

  /** The file system after the chunk files are written in order: chunk k
      (counting from 1) holds the header and then `cs[k - 1]`. */
  function Emit(fs: Store<Line>, dir: string, stem: string, header: Line, cs: seq<seq<Line>>): Store<Line>
    decreases |cs|
  {
    if cs == [] then fs
    else Emit(fs, dir, stem, header, cs[..|cs| - 1])[ChunkPath(dir, stem, |cs|) := [header] + cs[|cs| - 1]]
  }

  function HeaderOf(lines: seq<Line>): Line {
    if lines == [] then "" else lines[0]
  }

  /** The chunks `stdlib` writes for a file: none for an empty file, else the
      data lines in chunks of `Cap(rows_per_chunk)`. */
  function StdlibPlan(lines: seq<Line>, rowsPerChunk: int): seq<seq<Line>> {
    if lines == [] then [] else Chunks(lines[1..], Cap(rowsPerChunk))
  }

  /** What `stdlib` returns or raises, given that the volume takes at most
      `room` more lines during the call: it writes the data lines and one
      header per chunk. */
  function StdlibOutcome(fs: Store<Line>, path: Path, rowsPerChunk: int, room: nat): Result<SplitStats> {
    if path !in fs then Err(ErrorFor(path.Name(), NotFound))
    else
      var lines := fs[path];
      var cs := StdlibPlan(lines, rowsPerChunk);
      if lines == [] then Ok(SplitStats(path.Name(), 0))
      else if |lines| - 1 + |cs| <= room then Ok(SplitStats(path.Name(), |cs|))
      else Err(ErrorFor(path.Name(), NoSpace))
  }

  /** `stdlib` returned `r` and left `fs'`: the outcome above; on success the
      chunk files of the plan; on failure, whatever chunk files were begun,
      and nothing else touched. */
  ghost predicate StdlibDid(fs: Store<Line>, path: Path, rowsPerChunk: int, dir: string, room: nat,
                            r: Result<SplitStats>, fs': Store<Line>) {
    && r == StdlibOutcome(fs, path, rowsPerChunk, room)
    && (r.Ok? ==> path in fs && fs' == Emit(fs, dir, path.stem, HeaderOf(fs[path]), StdlibPlan(fs[path], rowsPerChunk)))
    && (r.Err? ==> SameOutside(fs, fs', dir, path.stem))
  }

  /** A chunk path is a chunk path of its stem. */
  lemma ChunkPathIsChunkPath(dir: string, stem: string, n: nat)
    ensures IsChunkPath(ChunkPath(dir, stem, n), dir, stem)
  {
    var p := ChunkPath(dir, stem, n);
    assert p.stem[..|stem| + 6] == stem + "_part_";
  }

  /** Writing the chunk files changes nothing but chunk files. */
  lemma {:induction false} EmitSameOutside(fs: Store<Line>, dir: string, stem: string, header: Line, cs: seq<seq<Line>>)
    ensures SameOutside(fs, Emit(fs, dir, stem, header, cs), dir, stem)
    decreases |cs|
  {
    if cs != [] {
      EmitSameOutside(fs, dir, stem, header, cs[..|cs| - 1]);
      ChunkPathIsChunkPath(dir, stem, |cs|);
    }
  }

  /** Appending one more chunk writes one more file. */
  lemma EmitSnoc(fs: Store<Line>, dir: string, stem: string, header: Line, cs: seq<seq<Line>>, c: seq<Line>)
    ensures Emit(fs, dir, stem, header, cs + [c]) == Emit(fs, dir, stem, header, cs)[ChunkPath(dir, stem, |cs| + 1) := [header] + c]
  {
    assert (cs + [c])[..|cs|] == cs;
  }

  /** A buffer that reached the chunk size is the first chunk of what is left. */
  lemma ChunksFirst(s: seq<Line>, cap: nat)
    requires 1 <= cap <= |s|
    ensures Chunks(s, cap) == [s[..cap]] + Chunks(s[cap..], cap)
  {
    if |s| == cap {
      assert s[..cap] == s && s[cap..] == [];
    }
  }

  /** Taking a full buffer off the front of what is left keeps the plan. */
  lemma ChunksAdvance(data: seq<Line>, cap: nat, written: seq<seq<Line>>, j: nat, i: nat)
    requires 1 <= cap && j + cap == i <= |data|
    requires Chunks(data, cap) == written + Chunks(data[j..], cap)
    ensures Chunks(data, cap) == (written + [data[j..i]]) + Chunks(data[i..], cap)
  {
    ChunksFirst(data[j..], cap);
    assert data[j..][..cap] == data[j..i] && data[j..][cap..] == data[i..];
  }

  /** Overwriting a chunk file keeps everything outside the chunk files. */
  lemma SameOutsideUpdate(fs: Store<Line>, fs1: Store<Line>, dir: string, stem: string, n: nat, v: seq<Line>)
    requires SameOutside(fs, fs1, dir, stem)
    ensures SameOutside(fs, fs1[ChunkPath(dir, stem, n) := v], dir, stem)
  {
    ChunkPathIsChunkPath(dir, stem, n);
  }

  /** A write that does not fit before the rest of the plan is written means
      the whole plan does not fit. */
  lemma NoRoomForPlan(data: seq<Line>, cap: nat, written: seq<seq<Line>>, j: nat, pending: nat, room: nat)
    requires cap >= 1 && j < |data| && 1 <= pending <= |data| - j
    requires Chunks(data, cap) == written + Chunks(data[j..], cap)
    requires j + |written| + 1 + pending > room
    ensures |data| + |Chunks(data, cap)| > room
  {
    assert |Chunks(data[j..], cap)| >= 1;
  }

  /** The next chunk of the plan is the next `n` lines: a full chunk, or
      the rest when that is no longer than a chunk. */
  lemma PlanStep(data: seq<Line>, cap: nat, written: seq<seq<Line>>, j: nat, n: nat)
    requires cap >= 1 && 1 <= n <= cap && j + n <= |data|
    requires n == cap || j + n == |data|
    requires Chunks(data, cap) == written + Chunks(data[j..], cap)
    ensures Chunks(data, cap) == (written + [data[j..j + n]]) + Chunks(data[j + n..], cap)
  {
    if n == cap {
      ChunksAdvance(data, cap, written, j, j + n);
    } else {
      assert data[j..] == data[j..j + n];
      assert data[j + n..] == [];
    }
  }

  /** Open a chunk file for writing, write the header, then write the rows; a
      write the volume cannot take raises and leaves the file as it was. */
  method WriteChunkFile(fs: Store<Line>, outFile: Path, header: Line, rows: seq<Line>, used: nat, room: nat)
    returns (ok: bool, fs': Store<Line>, used': nat)
    ensures ok <==> used + 1 + |rows| <= room
    ensures ok ==> fs' == fs[outFile := [header] + rows] && used' == used + 1 + |rows|
    ensures !ok ==> fs' == fs[outFile := if used + 1 > room then [] else [header]]
  {
    fs' := fs[outFile := []];
    used' := used;
    if used' + 1 > room {
      return false, fs', used';
    }
    fs' := fs'[outFile := [header]];
    used' := used' + 1;
    if used' + |rows| > room {
      return false, fs', used';
    }
    fs' := fs'[outFile := [header] + rows];
    used' := used' + |rows|;
    ok := true;
  }

  /** The state of a writing loop: `written` is the plan for the data lines
      before `j`, its chunk files are on `cur`, and the `used` lines written so
      far fit. */
  ghost predicate OnPlan(fs: Store<Line>, cur: Store<Line>, dir: string, stem: string, header: Line,
                         data: seq<Line>, cap: nat, written: seq<seq<Line>>, j: nat, used: nat, room: nat) {
    && cap >= 1 && j <= |data|
    && Chunks(data, cap) == written + Chunks(data[j..], cap)
    && cur == Emit(fs, dir, stem, header, written)
    && used == j + |written| <= room
  }

  /** Every data line is behind the loop: the whole plan is written and fits. */
  lemma OnPlanDone(fs: Store<Line>, cur: Store<Line>, dir: string, stem: string, header: Line,
                   data: seq<Line>, cap: nat, written: seq<seq<Line>>, used: nat, room: nat)
    requires OnPlan(fs, cur, dir, stem, header, data, cap, written, |data|, used, room)
    ensures written == Chunks(data, cap)
    ensures cur == Emit(fs, dir, stem, header, Chunks(data, cap))
    ensures |data| + |Chunks(data, cap)| <= room
  {
    assert data[|data|..] == [];
  }

  /** Writing the next planned chunk, `data[j..i]`, as chunk file
      |written| + 1 advances the plan by one chunk. */
  lemma OnPlanAdvance(fs: Store<Line>, cur: Store<Line>, dir: string, stem: string, header: Line,
                      data: seq<Line>, cap: nat, written: seq<seq<Line>>, j: nat, i: nat, used: nat, room: nat)
    requires OnPlan(fs, cur, dir, stem, header, data, cap, written, j, used, room)
    requires j < i <= |data| && i - j <= cap && (i - j == cap || i == |data|)
    requires used + 1 + (i - j) <= room
    ensures OnPlan(fs, cur[ChunkPath(dir, stem, |written| + 1) := [header] + data[j..i]], dir, stem, header,
                   data, cap, written + [data[j..i]], i, used + 1 + (i - j), room)
  {
    PlanStep(data, cap, written, j, i - j);
    EmitSnoc(fs, dir, stem, header, written, data[j..i]);
  }

  /** A chunk file write that does not fit: the plan does not fit either, and
      whatever that file now holds, nothing outside the chunk files changed. */
  lemma OnPlanFail(fs: Store<Line>, cur: Store<Line>, dir: string, stem: string, header: Line,
                   data: seq<Line>, cap: nat, written: seq<seq<Line>>, j: nat, i: nat, used: nat, room: nat,
                   v: seq<Line>)
    requires OnPlan(fs, cur, dir, stem, header, data, cap, written, j, used, room)
    requires j < i <= |data| && used + 1 + (i - j) > room
    ensures |data| + |Chunks(data, cap)| > room
    ensures SameOutside(fs, cur[ChunkPath(dir, stem, |written| + 1) := v], dir, stem)
  {
    NoRoomForPlan(data, cap, written, j, i - j, room);
    EmitSameOutside(fs, dir, stem, header, written);
    SameOutsideUpdate(fs, cur, dir, stem, |written| + 1, v);
  }

  /** Write the buffer, the lines of `data` from `j` on, as the next chunk
      file (header, then the buffer): on success the plan has advanced by one
      chunk; a write that does not fit means the plan does not fit, and
      nothing outside the chunk files has changed. */
  method FlushChunk(fs: Store<Line>, cur: Store<Line>, dir: string, stem: string, header: Line,
                    data: seq<Line>, current: seq<Line>, ghost cap: nat, ghost written: seq<seq<Line>>,
                    ghost j: nat, ghost i: nat, chunkNum: nat, used: nat, room: nat)
    returns (ok: bool, fs': Store<Line>, used': nat)
    requires OnPlan(fs, cur, dir, stem, header, data, cap, written, j, used, room)
    requires j < i <= |data| && current == data[j..i] && i - j <= cap
    requires i - j == cap || i == |data|
    requires chunkNum == |written| + 1
    ensures ok ==> OnPlan(fs, fs', dir, stem, header, data, cap, written + [current], i, used', room)
    ensures !ok ==> |data| + |Chunks(data, cap)| > room && SameOutside(fs, fs', dir, stem)
  {
    ok, fs', used' := WriteChunkFile(cur, ChunkPath(dir, stem, chunkNum), header, current, used, room);
    if !ok {
      OnPlanFail(fs, cur, dir, stem, header, data, cap, written, j, i, used, room, fs'[ChunkPath(dir, stem, chunkNum)]);
      return;
    }
    OnPlanAdvance(fs, cur, dir, stem, header, data, cap, written, j, i, used, room);
  }

  /** Appending data line `i` to the buffer `data[j..i]`: the buffer is full
      exactly when it has reached the chunk size. */
  lemma BufferLine(data: seq<Line>, j: nat, i: nat, rowsPerChunk: int)
    requires j <= i < |data| && i - j < Cap(rowsPerChunk)
    ensures data[j..i] + [data[i]] == data[j..i + 1]
    ensures i + 1 - j >= rowsPerChunk <==> i + 1 - j == Cap(rowsPerChunk)
  {
  }

  /** The `for line in inf` loop of `stdlib`: collect data lines in
      `current` and write a chunk file (header, then the buffer) each time the
      buffer holds `rows_per_chunk` lines. What is left in `current` when the
      lines run out is a rest shorter than a chunk. */
  method WriteFullChunks(fs: Store<Line>, dir: string, stem: string, header: Line, data: seq<Line>,
                         rowsPerChunk: int, room: nat)
    returns (ok: bool, fs': Store<Line>, chunks: nat, current: seq<Line>, used: nat, ghost written: seq<seq<Line>>)
    ensures ok ==> |current| < Cap(rowsPerChunk) && |current| <= |data| && current == data[|data| - |current|..]
    ensures ok ==> chunks == |written|
    ensures ok ==> OnPlan(fs, fs', dir, stem, header, data, Cap(rowsPerChunk), written, |data| - |current|, used, room)
    ensures !ok ==> |data| + |Chunks(data, Cap(rowsPerChunk))| > room && SameOutside(fs, fs', dir, stem)
  {
    ghost var cap := Cap(rowsPerChunk);
    chunks := 0;
    current := [];
    written := [];
    ghost var j := 0;
    used := 0;
    fs' := fs;
    var i := 0;
    while i < |data|
      invariant j <= i <= |data| && current == data[j..i] && |current| < cap
      invariant chunks == |written|
      invariant OnPlan(fs, fs', dir, stem, header, data, cap, written, j, used, room)
    {
      BufferLine(data, j, i, rowsPerChunk);
      current := current + [data[i]];
      i := i + 1;
      if |current| >= rowsPerChunk {
        ok, fs', used := FlushChunk(fs, fs', dir, stem, header, data, current, cap, written, j, i, chunks + 1, used, room);
        if !ok {
          return;
        }
        written := written + [current];
        j := i;
        chunks := chunks + 1;
        current := [];
      }
    }
    ok := true;
  }

  /** The whole of `stdlib`'s writing: the full chunks, then one more chunk
      file for a non-empty rest. `ok` is false when a write does not fit. */
  method WriteChunks(fs: Store<Line>, dir: string, stem: string, header: Line, data: seq<Line>,
                     rowsPerChunk: int, room: nat)
    returns (ok: bool, fs': Store<Line>, chunks: nat)
    ensures ok <==> |data| + |Chunks(data, Cap(rowsPerChunk))| <= room
    ensures ok ==> fs' == Emit(fs, dir, stem, header, Chunks(data, Cap(rowsPerChunk)))
    ensures ok ==> chunks == |Chunks(data, Cap(rowsPerChunk))|
    ensures !ok ==> SameOutside(fs, fs', dir, stem)
  {
    var current, used;
    ghost var written;
    ok, fs', chunks, current, used, written := WriteFullChunks(fs, dir, stem, header, data, rowsPerChunk, room);
    if !ok {
      return;
    }
    if current != [] {
      ok, fs', used := FlushChunk(fs, fs', dir, stem, header, data, current, Cap(rowsPerChunk), written,
                                  |data| - |current|, |data|, chunks + 1, used, room);
      if !ok {
        return;
      }
      written := written + [current];
      chunks := chunks + 1;
    }
    OnPlanDone(fs, fs', dir, stem, header, data, Cap(rowsPerChunk), written, used, room);
  }

  /** `stdlib(file_path, rows_per_chunk, output_dir)`: read the header (an
      empty file gives 0 chunks), then write the chunk files; any exception is
      re-raised as `error {name}: e`. */
  method Stdlib(fs: Store<Line>, path: Path, rowsPerChunk: int, outputDir: string, room: nat)
    returns (r: Result<SplitStats>, fs': Store<Line>)
    ensures StdlibDid(fs, path, rowsPerChunk, outputDir, room, r, fs')
  {
    if path !in fs {
      return Err(ErrorFor(path.Name(), NotFound)), fs;
    }
    var lines := fs[path];
    if lines == [] {
      return Ok(SplitStats(path.Name(), 0)), fs;
    }
    var ok, chunks;
    ok, fs', chunks := WriteChunks(fs, outputDir, path.stem, lines[0], lines[1..], rowsPerChunk, room);
    if !ok {
      return Err(ErrorFor(path.Name(), NoSpace)), fs';
    }
    r := Ok(SplitStats(path.Name(), chunks));
  }

  /** The chunks `polars` writes: the slices at offsets 0, r, 2r, ... when the
      file has more than `rows_per_chunk` data rows, otherwise none. */
  function PolarsPlan(lines: seq<Line>, rowsPerChunk: int): seq<seq<Line>> {
    if |lines| - 1 > rowsPerChunk && rowsPerChunk >= 1 then Chunks(lines[1..], rowsPerChunk) else []
  }

  /** What `polars` returns or raises. Its reader raises on a missing or empty
      file, `range` raises on a zero step, and with a negative step the range
      from 0 up to a non-negative total is empty; nothing is wrapped. */
  function PolarsOutcome(fs: Store<Line>, path: Path, rowsPerChunk: int, room: nat): Result<SplitStats> {
    if path !in fs then Err(NotFound.Text())
    else if fs[path] == [] then Err(NoData.Text())
    else
      var lines := fs[path];
      var total := |lines| - 1;
      var cs := PolarsPlan(lines, rowsPerChunk);
      if total <= rowsPerChunk then Ok(SplitStats(path.Name(), 0))
      else if rowsPerChunk == 0 then Err(ZeroStep.Text())
      else if rowsPerChunk < 0 then Ok(SplitStats(path.Name(), 0))
      else if total + |cs| <= room then Ok(SplitStats(path.Name(), |cs|))
      else Err(NoSpace.Text())
  }

  ghost predicate PolarsDid(fs: Store<Line>, path: Path, rowsPerChunk: int, dir: string, room: nat,
                            r: Result<SplitStats>, fs': Store<Line>) {
    && r == PolarsOutcome(fs, path, rowsPerChunk, room)
    && (r.Ok? ==> path in fs && fs' == Emit(fs, dir, path.stem, HeaderOf(fs[path]), PolarsPlan(fs[path], rowsPerChunk)))
    && (r.Err? ==> SameOutside(fs, fs', dir, path.stem))
  }

  /** Write one slice, the `n` lines of `data` from `i` on, as the next
      chunk file with `write_csv`, which creates the file and writes the header
      and the rows in one call, so a write that does not fit leaves it empty. */
  method WriteSlice(fs: Store<Line>, cur: Store<Line>, dir: string, stem: string, header: Line,
                    data: seq<Line>, chunk: seq<Line>, ghost cap: nat, ghost written: seq<seq<Line>>,
                    ghost i: nat, chunkNum: nat, used: nat, room: nat)
    returns (ok: bool, fs': Store<Line>, used': nat)
    requires OnPlan(fs, cur, dir, stem, header, data, cap, written, i, used, room)
    requires 1 <= |chunk| <= cap && i + |chunk| <= |data| && chunk == data[i..i + |chunk|]
    requires |chunk| == cap || i + |chunk| == |data|
    requires chunkNum == |written| + 1
    ensures ok <==> used + 1 + |chunk| <= room
    ensures ok ==> OnPlan(fs, fs', dir, stem, header, data, cap, written + [chunk], i + |chunk|, used', room)
    ensures !ok ==> |data| + |Chunks(data, cap)| > room && SameOutside(fs, fs', dir, stem)
  {
    var outFile := ChunkPath(dir, stem, chunkNum);
    if used + 1 + |chunk| > room {
      OnPlanFail(fs, cur, dir, stem, header, data, cap, written, i, i + |chunk|, used, room, []);
      return false, cur[outFile := []], used;
    }
    fs' := cur[outFile := [header] + chunk];
    used' := used + 1 + |chunk|;
    OnPlanAdvance(fs, cur, dir, stem, header, data, cap, written, i, i + |chunk|, used, room);
    ok := true;
  }

  /** The offset loop of `polars`: for each offset in `range(0, total,
      rows_per_chunk)` write the slice of at most `rows_per_chunk` rows, with
      the header, as the next chunk file. `ok` is false when a write does not
      fit. */
  method WriteSlices(fs: Store<Line>, dir: string, stem: string, header: Line, data: seq<Line>,
                     rowsPerChunk: nat, room: nat)
    returns (ok: bool, fs': Store<Line>, chunks: nat)
    requires rowsPerChunk >= 1
    ensures ok <==> |data| + |Chunks(data, rowsPerChunk)| <= room
    ensures ok ==> fs' == Emit(fs, dir, stem, header, Chunks(data, rowsPerChunk))
    ensures ok ==> chunks == |Chunks(data, rowsPerChunk)|
    ensures !ok ==> SameOutside(fs, fs', dir, stem)
  {
    var total := |data|;
    chunks := 0;
    ghost var written: seq<seq<Line>> := [];
    ghost var done := 0;
    var used := 0;
    fs' := fs;
    var i := 0;
    while i < total
      invariant chunks == |written|
      invariant done == (if i < total then i else total)
      invariant OnPlan(fs, fs', dir, stem, header, data, rowsPerChunk, written, done, used, room)
    {
      var end := if i + rowsPerChunk < total then i + rowsPerChunk else total;
      var chunk := data[i..end];
      ok, fs', used := WriteSlice(fs, fs', dir, stem, header, data, chunk, rowsPerChunk, written, i, chunks + 1, used, room);
      if !ok {
        return;
      }
      written := written + [chunk];
      chunks := chunks + 1;
      done := end;
      i := i + rowsPerChunk;
    }
    OnPlanDone(fs, fs', dir, stem, header, data, rowsPerChunk, written, used, room);
    ok := true;
  }

  /** `polars(file_path, rows_per_chunk, output_dir)`: read the dataframe,
      return 0 when it has at most `rows_per_chunk` rows, else write the
      slices; exceptions are not caught. */
  method Polars(fs: Store<Line>, path: Path, rowsPerChunk: int, outputDir: string, room: nat)
    returns (r: Result<SplitStats>, fs': Store<Line>)
    ensures PolarsDid(fs, path, rowsPerChunk, outputDir, room, r, fs')
  {
    if path !in fs {
      return Err(NotFound.Text()), fs;
    }
    var lines := fs[path];
    if lines == [] {
      return Err(NoData.Text()), fs;
    }
    var total := |lines| - 1;
    if total <= rowsPerChunk {
      return Ok(SplitStats(path.Name(), 0)), fs;
    }
    if rowsPerChunk == 0 {
      return Err(ZeroStep.Text()), fs;
    }
    if rowsPerChunk < 0 {
      return Ok(SplitStats(path.Name(), 0)), fs;
    }
    var ok, chunks;
    ok, fs', chunks := WriteSlices(fs, outputDir, path.stem, lines[0], lines[1..], rowsPerChunk, room);
    if !ok {
      return Err(NoSpace.Text()), fs';
    }
    r := Ok(SplitStats(path.Name(), chunks));
  }

  /** `process(file_path, rows_per_chunk, output_dir, engine)`. The GPU
      function lives in a module that is not part of this model, so its effect
      is given as `gpu`. */
  method Process(fs: Store<Line>, path: Path, rowsPerChunk: int, outputDir: string, engine: string, room: nat,
                 gpu: Effect<SplitStats, Line>)
    returns (r: Result<SplitStats>, fs': Store<Line>)
    ensures Select(engine) == Gpu ==> Effect(r, fs') == gpu
    ensures Select(engine) == Columnar ==> PolarsDid(fs, path, rowsPerChunk, outputDir, room, r, fs')
    ensures Select(engine) == Naive ==> StdlibDid(fs, path, rowsPerChunk, outputDir, room, r, fs')
  {
    match Select(engine)
    case Gpu =>
      r, fs' := gpu.result, gpu.store;
    case Columnar =>
      r, fs' := Polars(fs, path, rowsPerChunk, outputDir, room);
    case Naive =>
      r, fs' := Stdlib(fs, path, rowsPerChunk, outputDir, room);
  }

  /** Completeness: the chunks, concatenated in order, are the data lines. */
  lemma {:induction false} ChunksConcat(s: seq<Line>, cap: nat)
    requires cap >= 1
    ensures Concat(Chunks(s, cap)) == s
    decreases |s|
  {
    if |s| > cap {
      var rest := Chunks(s[cap..], cap);
      ChunksConcat(s[cap..], cap);
      assert Chunks(s, cap) == [s[..cap]] + rest;
      ConcatCons(s[..cap], rest);
      assert s == s[..cap] + s[cap..];
    } else if s != [] {
      assert Chunks(s, cap) == [s];
      ConcatCons(s, []);
    }
  }

  /** Concatenating a chunk in front of others. */
  lemma ConcatCons(c: seq<Line>, cs: seq<seq<Line>>)
    ensures Concat([c] + cs) == c + Concat(cs)
  {
    assert ([c] + cs)[1..] == cs;
  }

  /** Every chunk but the last holds exactly `cap` lines; the last holds
      between 1 and `cap`. */
  lemma {:induction false} ChunkSizes(s: seq<Line>, cap: nat)
    requires cap >= 1
    ensures forall k :: 0 <= k < |Chunks(s, cap)| - 1 ==> |Chunks(s, cap)[k]| == cap
    ensures Chunks(s, cap) != [] ==> 1 <= |Chunks(s, cap)[|Chunks(s, cap)| - 1]| <= cap
    decreases |s|
  {
    if |s| > cap {
      ChunkSizes(s[cap..], cap);
      var cs := Chunks(s, cap);
      var rest := Chunks(s[cap..], cap);
      assert cs == [s[..cap]] + rest;
      forall k | 0 <= k < |cs| - 1
        ensures |cs[k]| == cap
      {
        if k > 0 {
          assert cs[k] == rest[k - 1];
        }
      }
    }
  }

  /** The number of chunks is the ceiling of (data lines / cap): none for no
      data, and otherwise the least count whose capacity holds all lines. */
  lemma {:induction false} ChunkCount(s: seq<Line>, cap: nat)
    requires cap >= 1
    ensures |Chunks(s, cap)| == 0 <==> s == []
    ensures s != [] ==> (|Chunks(s, cap)| - 1) * cap < |s| <= |Chunks(s, cap)| * cap
    decreases |s|
  {
    if |s| > cap {
      ChunkCount(s[cap..], cap);
      var m := |Chunks(s[cap..], cap)|;
      assert |Chunks(s, cap)| == m + 1;
      assert (m + 1) * cap == m * cap + cap;
      assert (m - 1) * cap == m * cap - cap;
    }
  }

  /** Chunk k of the plan is in file k, which starts with the header; every
      file that is not one of the written chunk files is as it was. */
  lemma EmitContents(fs: Store<Line>, dir: string, stem: string, header: Line, cs: seq<seq<Line>>)
    ensures forall k :: 1 <= k <= |cs| ==>
      ChunkPath(dir, stem, k) in Emit(fs, dir, stem, header, cs) &&
      Emit(fs, dir, stem, header, cs)[ChunkPath(dir, stem, k)] == [header] + cs[k - 1]
    ensures forall p :: p !in ChunkPaths(dir, stem, |cs|) ==>
      (p in Emit(fs, dir, stem, header, cs) <==> p in fs) &&
      (p in fs ==> Emit(fs, dir, stem, header, cs)[p] == fs[p])
  {
    forall k | 1 <= k <= |cs|
      ensures ChunkPath(dir, stem, k) in Emit(fs, dir, stem, header, cs)
      ensures Emit(fs, dir, stem, header, cs)[ChunkPath(dir, stem, k)] == [header] + cs[k - 1]
    {
      EmitChunk(fs, dir, stem, header, cs, k);
    }
    forall p | p !in ChunkPaths(dir, stem, |cs|)
      ensures p in Emit(fs, dir, stem, header, cs) <==> p in fs
      ensures p in fs ==> Emit(fs, dir, stem, header, cs)[p] == fs[p]
    {
      EmitOutside(fs, dir, stem, header, cs, p);
    }
  }

  /** File k holds the header and chunk k. */
  lemma {:induction false} EmitChunk(fs: Store<Line>, dir: string, stem: string, header: Line, cs: seq<seq<Line>>, k: nat)
    requires 1 <= k <= |cs|
    ensures ChunkPath(dir, stem, k) in Emit(fs, dir, stem, header, cs)
    ensures Emit(fs, dir, stem, header, cs)[ChunkPath(dir, stem, k)] == [header] + cs[k - 1]
    decreases |cs|
  {
    if k < |cs| {
      var init := cs[..|cs| - 1];
      EmitChunk(fs, dir, stem, header, init, k);
      ChunkPathInjective(dir, stem, k, |cs|);
    }
  }

  /** A file that is none of the chunk files 1 to |cs| is untouched. */
  lemma {:induction false} EmitOutside(fs: Store<Line>, dir: string, stem: string, header: Line, cs: seq<seq<Line>>, p: Path)
    requires p !in ChunkPaths(dir, stem, |cs|)
    ensures p in Emit(fs, dir, stem, header, cs) <==> p in fs
    ensures p in fs ==> Emit(fs, dir, stem, header, cs)[p] == fs[p]
    decreases |cs|
  {
    if cs != [] {
      var init := cs[..|cs| - 1];
      assert p != ChunkPath(dir, stem, |cs|);
      assert p !in ChunkPaths(dir, stem, |init|);
      EmitOutside(fs, dir, stem, header, init, p);
    }
  }

  /** Different chunk numbers give different chunk files. */
  lemma ChunkPathInjective(dir: string, stem: string, k: nat, m: nat)
    ensures ChunkPath(dir, stem, k) == ChunkPath(dir, stem, m) ==> k == m
  {
    if ChunkPath(dir, stem, k) == ChunkPath(dir, stem, m) {
      var a := ChunkPath(dir, stem, k).stem;
      var b := ChunkPath(dir, stem, m).stem;
      assert a[|stem| + 6..] == Pad4(k);
      assert b[|stem| + 6..] == Pad4(m);
      Pad4Format(k, m);
    }
  }

  /** Chunk k is named `{stem}_part_{k:04d}.csv`, with a four-digit number
      below 10000; different numbers give different files, and a chunk file is
      never the input file itself. */
  lemma ChunkNaming(dir: string, stem: string, k: nat, m: nat, input: Path)
    requires input.stem == stem
    ensures ChunkPath(dir, stem, k).Name() == stem + "_part_" + Pad4(k) + ".csv"
    ensures k < 10000 ==> |ChunkPath(dir, stem, k).Name()| == |stem| + 14
    ensures k != m ==> ChunkPath(dir, stem, k) != ChunkPath(dir, stem, m)
    ensures ChunkPath(dir, stem, k) != input
  {
    Pad4Format(k, m);
    ChunkPathInjective(dir, stem, k, m);
    assert |ChunkPath(dir, stem, k).stem| > |stem|;
  }

  /** What a successful `stdlib` split leaves: `chunks` files numbered 1 to
      `chunks`, each the header followed by its chunk; all but the last chunk
      full, the last non-empty; their concatenation the data lines; `chunks`
      the ceiling of data lines over `Cap(rows_per_chunk)`, that is the least
      count whose capacity holds them (so 0 for a file with only a header);
      and no other file touched. */
  lemma StdlibSplitsCompletely(fs: Store<Line>, path: Path, rowsPerChunk: int, dir: string, room: nat,
                               r: Result<SplitStats>, fs': Store<Line>)
    requires StdlibDid(fs, path, rowsPerChunk, dir, room, r, fs')
    requires r.Ok? && fs[path] != []
    ensures var data := fs[path][1..];
      var cs := Chunks(data, Cap(rowsPerChunk));
      && r.value.chunks == |cs|
      && (data == [] <==> cs == [])
      && (data != [] ==> (|cs| - 1) * Cap(rowsPerChunk) < |data| <= |cs| * Cap(rowsPerChunk))
      && (forall k :: 1 <= k <= |cs| ==>
            ChunkPath(dir, path.stem, k) in fs' && fs'[ChunkPath(dir, path.stem, k)] == [fs[path][0]] + cs[k - 1])
      && Concat(cs) == data
      && (forall k :: 0 <= k < |cs| - 1 ==> |cs[k]| == Cap(rowsPerChunk))
      && (cs != [] ==> 1 <= |cs[|cs| - 1]| <= Cap(rowsPerChunk))
      && (forall p :: p !in ChunkPaths(dir, path.stem, |cs|) ==> (p in fs' <==> p in fs) && (p in fs ==> fs'[p] == fs[p]))
  {
    var data := fs[path][1..];
    var cs := Chunks(data, Cap(rowsPerChunk));
    ChunkCount(data, Cap(rowsPerChunk));
    ChunksConcat(data, Cap(rowsPerChunk));
    ChunkSizes(data, Cap(rowsPerChunk));
    EmitContents(fs, dir, path.stem, fs[path][0], cs);
  }

  /** The two engines disagree on small files: with 1 to `rows_per_chunk` data
      lines `stdlib` writes one chunk file, `polars` none. */
  lemma SmallFileEnginesDisagree(fs: Store<Line>, path: Path, rowsPerChunk: int, room: nat)
    requires path in fs && 1 <= |fs[path]| - 1 <= rowsPerChunk
    requires |fs[path]| <= room
    ensures StdlibOutcome(fs, path, rowsPerChunk, room) == Ok(SplitStats(path.Name(), 1))
    ensures PolarsOutcome(fs, path, rowsPerChunk, room) == Ok(SplitStats(path.Name(), 0))
  {
    ChunkCount(fs[path][1..], Cap(rowsPerChunk));
  }

  /** Above `rows_per_chunk` data lines the engines agree: the same chunks and
      the same count, and they succeed or fail together. */
  lemma EnginesAgreeOnLargeFiles(fs: Store<Line>, path: Path, rowsPerChunk: int, room: nat)
    requires path in fs && |fs[path]| - 1 > rowsPerChunk >= 1
    ensures StdlibPlan(fs[path], rowsPerChunk) == PolarsPlan(fs[path], rowsPerChunk)
    ensures StdlibOutcome(fs, path, rowsPerChunk, room).Ok? <==> PolarsOutcome(fs, path, rowsPerChunk, room).Ok?
    ensures StdlibOutcome(fs, path, rowsPerChunk, room).Ok? ==>
      StdlibOutcome(fs, path, rowsPerChunk, room) == PolarsOutcome(fs, path, rowsPerChunk, room)
    ensures |StdlibPlan(fs[path], rowsPerChunk)| >= 2
  {
    ChunkCount(fs[path][1..], rowsPerChunk);
  }
}

/** The file system as the transforms see it: a map from paths to file
    contents (a sequence of lines or of parsed rows), the `.tmp` sibling used
    for the temp-then-replace step, and the outcomes the transforms report. */
module Files {

  /** One line of text, with its line terminator: lines compare with it. */
  type Line = string

  /** A path split the way `pathlib` does: directory, stem and suffix, so that
      the file's name is `stem + suffix` (`data.csv` has stem `data`). Only
      the split `PathlibSplit` allows stands for a file: `Path(d, "x.tmp", "")`
      and `Path(d, "x", ".tmp")` would otherwise be two keys for one file
      (`PathlibSplitUnique`). */
  datatype Path = Path(dir: string, stem: string, suffix: string) {
    function Name(): string { stem + suffix }

    /** `Path.with_suffix`: same directory and stem, new suffix. */
    function WithSuffix(s: string): Path { Path(dir, stem, s) }
  }

  /** `pathlib`'s split of a name: the suffix starts at the last dot, when
      that dot is neither the first nor the last character of the name. */
  predicate PathlibSplit(p: Path) {
    if p.suffix == [] then
      p.stem == [] || p.stem[|p.stem| - 1] == '.' || forall k :: 0 < k < |p.stem| ==> p.stem[k] != '.'
    else
      && p.stem != [] && |p.suffix| >= 2 && p.suffix[0] == '.'
      && forall k :: 1 <= k < |p.suffix| ==> p.suffix[k] != '.'
  }

  /** Under `pathlib`'s split a directory and a name give one path: no file
      has two keys. */
  lemma PathlibSplitUnique(p: Path, q: Path)
    requires PathlibSplit(p) && PathlibSplit(q)
    requires p.dir == q.dir && p.Name() == q.Name()
    ensures p == q
  {
    SplitPoint(p, q);
    SplitPoint(q, p);
    var name := p.Name();
    assert p.stem == name[..|p.stem|] && q.stem == name[..|q.stem|];
  }

  /** Two `pathlib` splits of one name: neither stem is longer than the
      other, because the shorter stem would end at a dot that the longer
      split's suffix or stem rules out. */
  lemma SplitPoint(long: Path, short: Path)
    requires PathlibSplit(long) && PathlibSplit(short) && long.Name() == short.Name()
    ensures |long.stem| <= |short.stem|
  {
    if |short.stem| < |long.stem| {
      var name := long.Name();
      var i := |short.stem|;
      assert name[i] == short.suffix[0] == '.';
      assert name[|name| - 1] == short.suffix[|short.suffix| - 1];
      assert name[i] == long.stem[i];
      if long.suffix != [] {
        SuffixDotFree(short, |long.stem| - i);
      }
      assert false;
    }
  }

  /** Past its leading dot, a `pathlib` suffix holds no dot. */
  lemma SuffixDotFree(p: Path, k: nat)
    requires PathlibSplit(p) && 1 <= k < |p.suffix|
    ensures p.Name()[|p.stem| + k] != '.'
  {
    assert p.Name()[|p.stem| + k] == p.suffix[k];
  }

  /** The temp sibling a transform writes before replacing the original. */
  function TempOf(p: Path): (t: Path)
    ensures t.dir == p.dir && t.stem == p.stem && t.suffix == ".tmp"
    ensures t.Name() == p.stem + ".tmp"
    ensures t == p <==> p.suffix == ".tmp"
  {
    p.WithSuffix(".tmp")
  }

  /** Every file present, with its contents. */
  type Store<T> = map<Path, seq<T>>

  /** `Path.replace(dst)`: `dst` takes the contents of `src`, and `src` is gone. */
  function Replace<T>(fs: Store<T>, src: Path, dst: Path): (fs': Store<T>)
    requires src in fs
    ensures dst in fs' && fs'[dst] == fs[src]
    ensures src != dst ==> src !in fs'
    ensures forall p :: p != src && p != dst ==> (p in fs' <==> p in fs) && (p in fs ==> fs'[p] == fs[p])
  {
    (fs - {src})[dst := fs[src]]
  }

  /** The faults an operating-system call or a library reader can raise. */
  datatype IoError =
    | NotFound   // opening a file that is not there
    | NoSpace    // a write that the volume cannot take
    | NoData     // a dataframe reader given an empty file
    | ZeroStep   // `range` called with a step of zero
  {
    function Text(): string {
      match this
      case NotFound => "[Errno 2] No such file or directory"
      case NoSpace => "[Errno 28] No space left on device"
      case NoData => "empty CSV"
      case ZeroStep => "range() arg 3 must not be zero"
    }
  }

  /** What a single-file transform returns: its statistics, or the text of the
      exception it raises. */
  datatype Result<S> = Ok(value: S) | Err(message: string)

  /** A transform's result together with the file system it leaves behind. */
  datatype Effect<S, T> = Effect(result: Result<S>, store: Store<T>)

  /** The wrapped exception text `error {name}: {e}` of the line-oriented
      transforms. */
  function ErrorFor(name: string, e: IoError): (msg: string)
    ensures |msg| > |"error " + name + ": "|
    ensures msg[..|"error " + name + ": "|] == "error " + name + ": "
  {
    "error " + name + ": " + e.Text()
  }

  /** The engine a `process` entry point hands a file to. */
  datatype Engine = Gpu | Columnar | Naive

  /** `process(..., engine)`: `'cudf'` selects the GPU function, `'polars'` the
      dataframe one, and any other string the standard-library one. */
  function Select(engine: string): (e: Engine)
    ensures e == Gpu <==> engine == "cudf"
    ensures e == Columnar <==> engine == "polars"
    ensures e == Naive <==> engine != "cudf" && engine != "polars"
  {
    if engine == "cudf" then Gpu
    else if engine == "polars" then Columnar
    else Naive
  }
}

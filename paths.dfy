/** The part of `pathlib.PurePosixPath` the downloader uses: building a path
    from a string and the `/` operator. */
module Paths {
  import PyStr

  /** A path as pathlib keeps it: rooted or not, and its name parts. */
  datatype Path = Path(absolute: bool, parts: seq<string>)

  /** A part pathlib keeps: not empty, not ".", and without a slash. */
  predicate IsName(p: string)
  {
    p != "" && p != "." && '/' !in p
  }

  /** The segments that survive normalisation, in order. */
  function KeepNames(segs: seq<string>): (r: seq<string>)
    ensures |r| <= |segs|
    ensures forall i :: 0 <= i < |r| ==> IsName(r[i])
    ensures forall p :: p in r <==> p in segs && IsName(p)
  {
    if |segs| == 0 then []
    else (if IsName(segs[0]) then [segs[0]] else []) + KeepNames(segs[1..])
  }

  /** One segment survives exactly when it is a name. */
  lemma KeepNamesSingle(x: string)
    ensures KeepNames([x]) == if IsName(x) then [x] else []
  {
    assert [x][1..] == [];
  }

  /** Filtering distributes over concatenation: together with
      `KeepNamesSingle`, the kept parts are the names among the segments, in
      their order and with their repetitions. */
  lemma {:induction false} KeepNamesConcat(a: seq<string>, b: seq<string>)
    ensures KeepNames(a + b) == KeepNames(a) + KeepNames(b)
    decreases |a|
  {
    if |a| == 0 {
      assert a + b == b;
    } else {
      assert (a + b)[0] == a[0];
      assert (a + b)[1..] == a[1..] + b;
      KeepNamesConcat(a[1..], b);
    }
  }

  /** `Path(s)`: rooted when `s` starts with a slash; empty and "." segments
      (repeated slashes, a trailing slash, "./") vanish. */
  function PathOf(s: string): (p: Path)
    ensures p.absolute <==> |s| > 0 && s[0] == '/'
    ensures forall i :: 0 <= i < |p.parts| ==> IsName(p.parts[i])
  {
    Path(|s| > 0 && s[0] == '/', KeepNames(PyStr.Split(s, '/')))
  }

  /** `base / name`: an absolute `name` replaces `base`, any other name
      appends its parts. */
  function Div(base: Path, name: string): Path
  {
    var q := PathOf(name);
    if q.absolute then q else Path(base.absolute, base.parts + q.parts)
  }

  /** A plain file name lands directly inside `base`. */
  lemma DivPlainName(base: Path, name: string)
    requires IsName(name)
    ensures Div(base, name) == Path(base.absolute, base.parts + [name])
  {
    PyStr.SplitWithoutSeparator(name, '/');
    assert KeepNames([name]) == [name] by {
      assert [name][1..] == [];
    }
  }

  /** A relative name extends `base`: the result keeps `base`'s root and
      starts with `base`'s parts. This is about the path's text only: like
      pathlib, `Div` does not resolve "..", so "../x.pdf" keeps its ".." part
      and names a file outside `base` on disk. */
  lemma DivRelativeExtends(base: Path, name: string)
    requires |name| == 0 || name[0] != '/'
    ensures Div(base, name).absolute == base.absolute
    ensures |Div(base, name).parts| >= |base.parts|
    ensures Div(base, name).parts[..|base.parts|] == base.parts
  {
  }

  /** An absolute name escapes `base` altogether. */
  lemma DivAbsoluteReplaces(base: Path, name: string)
    requires |name| > 0 && name[0] == '/'
    ensures Div(base, name) == PathOf(name)
  {
  }

  /** "./a/b" for two names a and b is the relative path a/b: the leading
      "." vanishes. */
  lemma DotRelativePath(a: string, b: string)
    requires IsName(a) && IsName(b)
    ensures PathOf("./" + a + "/" + b) == Path(false, [a, b])
  {
    var s := "./" + a + "/" + b;
    assert s == "." + ['/'] + (a + ['/'] + b);
    PyStr.SplitPeel(".", a + ['/'] + b, '/');
    PyStr.SplitPeel(a, b, '/');
    PyStr.SplitWithoutSeparator(b, '/');
    var segs := [".", a, b];
    assert PyStr.Split(s, '/') == segs;
    assert KeepNames(segs[2..]) == [b] by {
      assert segs[2..][1..] == [];
    }
    assert KeepNames(segs[1..]) == [a, b] by {
      assert segs[1..][1..] == segs[2..];
    }
    assert s[0] == '.';
  }

  /** The downloader's default directory "./data/raw" is the relative path
      data/raw. */
  lemma DefaultOutputDir()
    ensures PathOf("./data/raw") == Path(false, ["data", "raw"])
  {
    assert "./data/raw" == "./" + "data" + "/" + "raw";
    assert IsName("data") && IsName("raw");
    DotRelativePath("data", "raw");
  }
}

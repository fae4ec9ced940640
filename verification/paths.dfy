/** The parts of `pathlib` the command-line layer relies on: the final
    component of a path, its suffix and stem, and `with_name`. Paths are
    POSIX paths in normal form ('/'-separated, no trailing separator). */
module Paths {
  import opened Wrappers
  import opened Text

  /** `str.rfind`: the index of the last `c` in `s`, or -1. */
  function LastIndex(s: string, c: char): (i: int)
    ensures -1 <= i < |s|
    ensures i >= 0 ==> s[i] == c
    ensures forall k :: i < k < |s| ==> s[k] != c
  {
    if s == [] then -1
    else if s[|s| - 1] == c then |s| - 1
    else LastIndex(s[..|s| - 1], c)
  }

  /** The part after the last separator. */
  function LastPart(p: string): (n: string)
    ensures '/' !in n
    ensures |n| <= |p| && p[|p| - |n|..] == n
  {
    var i := LastIndex(p, '/');
    var n := p[i + 1..];
    assert '/' !in n by {
      forall k | 0 <= k < |n|
        ensures n[k] != '/'
      {
        assert n[k] == p[i + 1 + k];
      }
    }
    n
  }

  /** `PurePath.name`: the part after the last separator, except that the
      path `.` has the empty name. */
  function Name(p: string): (n: string)
    ensures '/' !in n && n != "."
  {
    var n := LastPart(p);
    if n == "." then "" else n
  }

  /** The current directory `.` has the empty name, so `with_name` and
      `with_suffix` refuse it. */
  lemma NameOfDot()
    ensures Name(".") == "" && Dir(".") == "."
    ensures WithName(".", "x").Err?
  {
    assert LastIndex(".", '/') == -1 by {
      assert "."[0] != '/';
      assert "."[..0] == [];
    }
    assert LastPart(".") == ".";
  }

  /** Everything before the name. */
  function Dir(p: string): (d: string)
    ensures d + Name(p) == p
  {
    var n := Name(p);
    assert p[|p| - |n|..] == n;
    assert p[..|p| - |n|] + p[|p| - |n|..] == p;
    p[..|p| - |n|]
  }

  /** Where a name's suffix starts: its last dot, when that dot neither
      starts nor ends the name. */
  function SuffixStart(n: string): (r: Option<nat>)
    ensures r.Some? ==> 0 < r.value < |n| - 1 && n[r.value] == '.'
    ensures r.Some? ==> forall k :: r.value < k < |n| ==> n[k] != '.'
  {
    var i := LastIndex(n, '.');
    if 0 < i < |n| - 1 then Some(i) else None
  }

  /** `PurePath.suffix` of a name. */
  function Suffix(n: string): (s: string)
    ensures s == "" || (|s| >= 2 && s[0] == '.' && forall k :: 0 < k < |s| ==> s[k] != '.')
  {
    match SuffixStart(n)
    case None => ""
    case Some(i) => n[i..]
  }

  /** `PurePath.stem` of a name. */
  function Stem(n: string): (s: string)
    ensures |s| <= |n|
  {
    match SuffixStart(n)
    case None => n
    case Some(i) => n[..i]
  }

  /** A name is its stem followed by its suffix, and a non-empty suffix
      leaves a non-empty stem. */
  lemma StemSuffix(n: string)
    ensures Stem(n) + Suffix(n) == n
    ensures Suffix(n) != "" ==> Stem(n) != ""
  {
    match SuffixStart(n)
    case None =>
    case Some(i) =>
      assert n[..i] + n[i..] == n;
  }

  lemma DirEndsWithSeparator(p: string)
    requires Name(p) != ""
    ensures Dir(p) == "" || Dir(p)[|Dir(p)| - 1] == '/'
  {
  }

  /** `PurePath.with_name`: a path whose own name is empty, or a new name
      that is empty, `.` or contains a separator, is an error. */
  function WithName(p: string, n: string): (r: Result<string, string>)
    ensures r.Ok? <==> Name(p) != "" && n != "" && n != "." && '/' !in n
    ensures r.Ok? ==> Name(r.value) == n && Dir(r.value) == Dir(p)
  {
    if Name(p) == "" then Err("empty name")
    else if n == "" || n == "." || '/' in n then Err("invalid name")
    else
      DirEndsWithSeparator(p);
      NameOfJoin(Dir(p), n);
      Ok(Dir(p) + n)
  }

  /** A valid new name is put in place of the path's own name. */
  lemma WithNameIs(p: string, n: string)
    requires Name(p) != "" && n != "" && n != "." && '/' !in n
    ensures WithName(p, n) == Ok(Dir(p) + n)
  {
  }

  /** A non-empty name has a non-empty stem. */
  lemma StemNonEmpty(n: string)
    requires n != ""
    ensures Stem(n) != ""
  {
  }

  /** `PurePath.with_suffix`: the name's suffix, if any, is replaced. A
      suffix that contains a separator, is `.` or does not start with a dot,
      or a path whose name is empty, is an error, and so is a new name `.`
      (the stem of a name like `..x` with the empty suffix). */
  function WithSuffix(p: string, suf: string): (r: Result<string, string>)
    ensures r.Ok? <==> Name(p) != "" && '/' !in suf && (suf == "" || (suf[0] == '.' && suf != "."))
                       && Stem(Name(p)) + suf != "."
    ensures r.Ok? ==> Dir(r.value) == Dir(p) && Name(r.value) == Stem(Name(p)) + suf
  {
    if '/' in suf || (suf != "" && suf[0] != '.') || suf == "." then Err("invalid suffix")
    else if Name(p) == "" then Err("empty name")
    else if Stem(Name(p)) + suf == "." then Err("invalid name")
    else
      var n := Stem(Name(p)) + suf;
      StemNonEmpty(Name(p));
      assert '/' !in n by {
        StemSuffix(Name(p));
        assert forall k :: 0 <= k < |Stem(Name(p))| ==> Stem(Name(p))[k] == Name(p)[k];
      }
      DirEndsWithSeparator(p);
      NameOfJoin(Dir(p), n);
      Ok(Dir(p) + n)
  }

  /** A name appended to a directory prefix is the name of the result. */
  lemma NameOfJoin(d: string, n: string)
    requires '/' !in n && n != "" && n != "."
    requires d == "" || d[|d| - 1] == '/'
    ensures Name(d + n) == n && Dir(d + n) == d
  {
    LastIndexOfPrefix(d, n, '/');
    var i := LastIndex(d + n, '/');
    assert i == |d| - 1;
    assert (d + n)[|d|..] == n;
    assert (d + n)[..|d|] == d;
  }

  lemma {:induction false} LastIndexOfPrefix(d: string, n: string, c: char)
    requires c !in n
    ensures LastIndex(d + n, c) == LastIndex(d, c)
    decreases |n|
  {
    if n == [] {
      assert d + n == d;
    } else {
      var q := d + n;
      assert q[|q| - 1] == n[|n| - 1];
      assert q[..|q| - 1] == d + n[..|n| - 1];
      LastIndexOfPrefix(d, n[..|n| - 1], c);
    }
  }
}

/** The shell's path builder: joins a path to the current directory and resolves "." and "..",
    writing the result in place, component by component. */
module Paths {

  const ENAMETOOLONG: int := 36
  const NUL: char := '\0'

  /** Length of the first component of p. */
  function CompLen(p: string): (n: nat)
    ensures n <= |p| && (n < |p| ==> p[n] == '/')
    ensures forall i :: 0 <= i < n ==> p[i] != '/'
  {
    if p == "" || p[0] == '/' then 0 else 1 + CompLen(p[1..])
  }

  /** The non-empty components of a path, in order. */
  function Comps(p: string): seq<string>
    decreases |p|
  {
    if p == "" then []
    else if p[0] == '/' then Comps(p[1..])
    else [p[..CompLen(p)]] + Comps(p[CompLen(p)..])
  }

  /** A component that stands for itself. */
  predicate Plain(c: string) {
    c != "" && c != "." && c != ".." && '/' !in c
  }

  ghost predicate AllPlain(s: seq<string>) {
    forall i :: 0 <= i < |s| ==> Plain(s[i])
  }

  /** The directory stack after one more component. */
  function Enter(s: seq<string>, c: string): seq<string> {
    if c == "." then s
    else if c == ".." then (if s == [] then [] else s[..|s| - 1])
    else s + [c]
  }

  function EnterAll(s: seq<string>, cs: seq<string>): seq<string>
    decreases |cs|
  {
    if cs == [] then s else EnterAll(Enter(s, cs[0]), cs[1..])
  }

  /** "/a/b" for a stack, "" for the root. */
  function Raw(s: seq<string>): string {
    if s == [] then "" else Raw(s[..|s| - 1]) + "/" + s[|s| - 1]
  }

  /** The absolute path of a stack. */
  function Join(s: seq<string>): string {
    if s == [] then "/" else Raw(s)
  }

  /** On the way through cs some directory's path is longer than max. */
  predicate TooLong(s: seq<string>, cs: seq<string>, max: nat)
    decreases |cs|
  {
    cs != [] && (|Raw(Enter(s, cs[0]))| > max || TooLong(Enter(s, cs[0]), cs[1..], max))
  }

  // ---------------------------------------------------------------- what resolving means

  lemma {:induction false} EnterAllPlain(s: seq<string>, cs: seq<string>)
    requires AllPlain(s) && forall i :: 0 <= i < |cs| ==> cs[i] != "" && '/' !in cs[i]
    ensures AllPlain(EnterAll(s, cs))
    decreases |cs|
  {
    if cs != [] { EnterAllPlain(Enter(s, cs[0]), cs[1..]); }
  }

  lemma {:induction false} CompsAreNames(p: string)
    ensures forall i :: 0 <= i < |Comps(p)| ==> Comps(p)[i] != "" && '/' !in Comps(p)[i]
    decreases |p|
  {
    if p != "" {
      if p[0] == '/' { CompsAreNames(p[1..]); } else {
        CompsAreNames(p[CompLen(p)..]);
        assert CompLen(p) >= 1;
      }
    }
  }

  /** The resolved stack of any path has no empty, "." or ".." component. */
  lemma ResultIsCanonical(s: seq<string>, p: string)
    requires AllPlain(s)
    ensures AllPlain(EnterAll(s, Comps(p)))
  {
    CompsAreNames(p);
    EnterAllPlain(s, Comps(p));
  }

  lemma {:induction false} EnterAllAppend(s: seq<string>, a: seq<string>, b: seq<string>)
    ensures EnterAll(s, a + b) == EnterAll(EnterAll(s, a), b)
    decreases |a|
  {
    if a == [] {
      assert a + b == b;
    } else {
      assert (a + b)[1..] == a[1..] + b;
      EnterAllAppend(Enter(s, a[0]), a[1..], b);
    }
  }

  lemma {:induction false} CompLenSlash(c: string, r: string)
    requires '/' !in c && (r == "" || r[0] == '/')
    ensures CompLen(c + r) == |c|
  {
    if c == "" {
      assert c + r == r;
    } else {
      assert (c + r)[1..] == c[1..] + r;
      assert c[0] in c && (c + r)[0] == c[0];
      forall x | x in c[1..] ensures x in c { }
      CompLenSlash(c[1..], r);
    }
  }

  /** A name in front of a path that starts with a slash is its first component. */
  lemma FirstComponent(c: string, r: string)
    requires c != "" && '/' !in c && (r == "" || r[0] == '/')
    ensures Comps(c + r) == [c] + Comps(r)
  {
    CompLenSlash(c, r);
    var p := c + r;
    assert p[0] == c[0] && c[0] in c;
    assert p[..|c|] == c && p[|c|..] == r;
  }

  /** A slash between two paths keeps their components apart. */
  lemma {:induction false} CompsSplit(a: string, b: string)
    ensures Comps(a + "/" + b) == Comps(a) + Comps(b)
    decreases |a|
  {
    if a == "" {
      assert (a + "/" + b)[1..] == b;
    } else if a[0] == '/' {
      assert (a + "/" + b)[1..] == a[1..] + "/" + b;
      CompsSplit(a[1..], b);
    } else {
      SplitAfterName(a, CompLen(a), b);
      CompsSplit(a[CompLen(a)..], b);
    }
  }

  lemma SplitAfterName(a: string, n: nat, b: string)
    requires a != "" && a[0] != '/' && n == CompLen(a)
    ensures Comps(a) == [a[..n]] + Comps(a[n..]) && |a[n..]| < |a|
    ensures Comps(a + "/" + b) == [a[..n]] + Comps(a[n..] + "/" + b)
  {
    var c, r := a[..n], a[n..];
    assert a == c + r && a + "/" + b == c + (r + "/" + b);
    assert '/' !in c by { forall i | 0 <= i < |c| ensures c[i] != '/' { assert c[i] == a[i]; } }
    FirstComponent(c, r);
    FirstComponent(c, r + "/" + b);
  }

  /** Resolving a relative path from a directory is resolving the two joined by a slash. */
  lemma RelativeIsJoined(pwd: string, p: string)
    ensures EnterAll(EnterAll([], Comps(pwd)), Comps(p)) == EnterAll([], Comps(pwd + "/" + p))
  {
    CompsSplit(pwd, p);
    EnterAllAppend([], Comps(pwd), Comps(p));
  }

  lemma {:induction false} CompsOfRaw(s: seq<string>)
    requires AllPlain(s)
    ensures Comps(Raw(s)) == s
    decreases |s|
  {
    if s != [] {
      var c := s[|s| - 1];
      CompsOfRaw(s[..|s| - 1]);
      CompsSplit(Raw(s[..|s| - 1]), c);
      assert c + "" == c;
      CompLenSlash(c, "");
      assert c[|c|..] == "" && c[..|c|] == c;
      assert c[0] in c;
      assert Comps(c) == [c];
    }
  }

  lemma {:induction false} EnterPlain(s: seq<string>, cs: seq<string>)
    requires AllPlain(cs)
    ensures EnterAll(s, cs) == s + cs
    decreases |cs|
  {
    if cs == [] { assert s + cs == s; } else {
      EnterPlain(s + [cs[0]], cs[1..]);
      assert (s + [cs[0]]) + cs[1..] == s + cs;
    }
  }

  /** A canonical path resolves to itself. */
  lemma CanonicalIsFixed(s: seq<string>)
    requires AllPlain(s)
    ensures Join(EnterAll([], Comps(Join(s)))) == Join(s)
  {
    if s == [] {
      assert Comps("/") == Comps("/"[1..]);
    } else {
      CompsOfRaw(s);
      EnterPlain([], s);
      assert [] + s == s;
    }
  }

  // ---------------------------------------------------------------- the loops

  /** The NUL-terminated string at the start of a is t. */
  ghost predicate IsString(a: array<char>, t: string)
    reads a
  {
    |t| < a.Length && a[..|t|] == t && a[|t|] == NUL
  }

  /** _subpathlen from index i of p. */
  method SubPathLen(p: string, i: nat) returns (n: nat)
    requires i <= |p|
    ensures i + n <= |p| && n == CompLen(p[i..])
  {
    var at := i;
    while at < |p| && p[at] != '/'
      invariant i <= at <= |p|
      invariant CompLen(p[i..]) == at - i + CompLen(p[at..])
    {
      assert p[at..][1..] == p[at + 1..];
      at := at + 1;
    }
    return at - i;
  }

  /** _trim_slash from index i of p. */
  method TrimSlash(p: string, i: nat) returns (j: nat)
    requires i <= |p|
    ensures i + CompLen(p[i..]) <= j <= |p| && (j < |p| ==> p[j] != '/')
    ensures Comps(p[j..]) == Comps(p[i + CompLen(p[i..])..])
    ensures i < |p| ==> i < j
  {
    var n := SubPathLen(p, i);
    j := i + n;
    while j < |p| && p[j] == '/'
      invariant i + n <= j <= |p|
      invariant Comps(p[j..]) == Comps(p[i + n..])
      invariant i < |p| && n == 0 && j == i ==> p[i] == '/'
    {
      assert p[j..][1..] == p[j + 1..];
      j := j + 1;
    }
  }

  /** dst holds the path of stack st, and w is the end of its components. */
  ghost predicate Holds(dst: array<char>, st: seq<string>, w: nat)
    reads dst
  {
    && w == |Raw(st)| < dst.Length && dst[..w] == Raw(st)
    && IsString(dst, Join(st))
  }

  /** Step back over the last component: w and avail move to the slash before it. */
  method StepBack(dst: array<char>, w0: nat, avail0: int, ghost st: seq<string>) returns (w: nat, avail: int)
    requires st != [] && Holds(dst, st, w0) && AllPlain(st)
    ensures w == |Raw(st[..|st| - 1])| < w0 && avail + w == avail0 + w0
    ensures dst[..w] == Raw(st[..|st| - 1])
  {
    ghost var front, last := Raw(st[..|st| - 1]), st[|st| - 1];
    assert Raw(st) == front + "/" + last;
    w := w0 - 1;
    avail := avail0;
    assert Plain(last);
    SlashPlace(dst[..w0], front, last);
    while dst[w] != '/'
      invariant |front| <= w < w0
      invariant avail + w == avail0 + w0 - 1
      decreases w
    {
      w := w - 1;
      avail := avail + 1;
    }
    avail := avail + 1;
    assert dst[..w] == dst[..w0][..w];
  }

  /** In front + "/" + last the slash of that place is the last one. */
  lemma SlashPlace(t: seq<char>, front: string, last: string)
    requires t == front + "/" + last && '/' !in last
    ensures t[|front|] == '/'
    ensures forall i :: |front| < i < |t| ==> t[i] != '/'
  {
    forall i | |front| < i < |t| ensures t[i] != '/' {
      assert t[i] == last[i - |front| - 1];
    }
  }

  /** Append "/" and the component at p[i..i + n] to the string that ends at w. */
  method Append(dst: array<char>, w0: nat, p: string, i: nat, n: nat, ghost st: seq<string>) returns (w: nat)
    requires Holds(dst, st, w0) && i + n <= |p| && n > 0 && w0 + n + 1 < dst.Length
    modifies dst
    ensures w == w0 + n + 1 && Holds(dst, st + [p[i..i + n]], w)
  {
    ghost var c, raw := p[i..i + n], Raw(st);
    RawAppend(st, c);
    assert dst[..w0] == raw;
    dst[w0] := '/';
    assert dst[..w0 + 1] == raw + "/";
    CopyFrom(dst, w0 + 1, p, i, n);
    w := w0 + 1 + n;
    assert dst[..w] == dst[..w0 + 1] + dst[w0 + 1..w];
  }

  lemma RawAppend(st: seq<string>, c: string)
    ensures Raw(st + [c]) == Raw(st) + "/" + c
  {
    assert (st + [c])[..|st + [c]| - 1] == st;
  }

  /** strcpy of n characters of p to dst from index at on. */
  method CopyFrom(dst: array<char>, at: nat, p: string, i: nat, n: nat)
    requires i + n <= |p| && at + n < dst.Length
    modifies dst
    ensures dst[..at] == old(dst[..at]) && dst[at..at + n] == p[i..i + n] && dst[at + n] == NUL
  {
    var k := 0;
    while k < n
      invariant 0 <= k <= n
      invariant dst[..at] == old(dst[..at]) && dst[at..at + k] == p[i..i + k]
    {
      dst[at + k] := p[i + k];
      k := k + 1;
    }
    dst[at + n] := NUL;
  }

  /** The name at p[i..i + n] is the next component. */
  lemma NextComponent(p: string, i: nat, n: nat)
    requires i < |p| && p[i] != '/' && n == CompLen(p[i..])
    ensures 0 < n && i + n <= |p| && '/' !in p[i..i + n]
    ensures Comps(p[i..]) == [p[i..i + n]] + Comps(p[i + n..])
  {
    var q := p[i..];
    assert q[0] == p[i];
    assert q[..n] == p[i..i + n] && q[n..] == p[i + n..];
  }

  /** One more component: "." and ".." move w and avail, a name is appended if it fits. */
  method Apply(dst: array<char>, max: nat, p: string, i: nat, n: nat, w0: nat, avail0: int, ghost st: seq<string>)
    returns (ok: bool, w: nat, avail: int)
    requires i + n <= |p| && n > 0 && '/' !in p[i..i + n]
    requires Holds(dst, st, w0) && AllPlain(st) && avail0 == max - w0 >= 0 && 1 <= max < dst.Length
    modifies dst
    ensures ok <==> |Raw(Enter(st, p[i..i + n]))| <= max
    ensures ok ==> Holds(dst, Enter(st, p[i..i + n]), w) && avail == max - w >= 0
    ensures ok ==> AllPlain(Enter(st, p[i..i + n]))
  {
    ok, w, avail := true, w0, avail0;
    if n == 1 && p[i] == '.' {
      assert p[i..i + n] == ".";
    } else if n == 2 && p[i] == '.' && p[i + 1] == '.' {
      assert p[i..i + n] == "..";
      RawEmpty(st);
      if avail < max {
        w, avail := StepUp(dst, max, w, avail, st);
      }
    } else {
      ok, w, avail := EnterName(dst, max, p, i, n, w, avail, st);
    }
  }

  /** A name is appended if there is room. */
  method EnterName(dst: array<char>, max: nat, p: string, i: nat, n: nat, w0: nat, avail0: int, ghost st: seq<string>)
    returns (ok: bool, w: nat, avail: int)
    requires i + n <= |p| && n > 0 && '/' !in p[i..i + n]
    requires !(n == 1 && p[i] == '.') && !(n == 2 && p[i] == '.' && p[i + 1] == '.')
    requires Holds(dst, st, w0) && AllPlain(st) && avail0 == max - w0 >= 0 && 1 <= max < dst.Length
    modifies dst
    ensures Plain(p[i..i + n]) && Enter(st, p[i..i + n]) == st + [p[i..i + n]]
    ensures ok <==> |Raw(st + [p[i..i + n]])| <= max
    ensures ok ==> Holds(dst, st + [p[i..i + n]], w) && avail == max - w >= 0
  {
    ghost var c := p[i..i + n];
    NotSpecial(c);
    RawAppend(st, c);
    ok, w, avail := true, w0, avail0;
    if avail < n + 1 {
      ok := false;
    } else {
      w := Append(dst, w, p, i, n, st);
      avail := avail - (n + 1);
    }
  }

  /** ".." below the root: step back and end the string there, or at "/" if that is the root. */
  method StepUp(dst: array<char>, max: nat, w0: nat, avail0: int, ghost st: seq<string>) returns (w: nat, avail: int)
    requires st != [] && Holds(dst, st, w0) && AllPlain(st) && avail0 == max - w0 >= 0 && 1 <= max < dst.Length
    modifies dst
    ensures Holds(dst, st[..|st| - 1], w) && avail == max - w >= 0 && w < w0
  {
    w, avail := StepBack(dst, w0, avail0, st);
    RawEmpty(st[..|st| - 1]);
    if avail == max {
      dst[w] := '/';
      dst[w + 1] := NUL;
      assert dst[..1] == "/";
    } else {
      dst[w] := NUL;
    }
  }

  /** Where the walk starts: at the root for an absolute path, else in the current directory. */
  method Begin(dst: array<char>, max: nat, p: string, pwd: string, ghost cwd: seq<string>)
    returns (i: nat, w: nat, avail: int)
    requires 1 <= max < dst.Length && AllPlain(cwd) && pwd == Join(cwd) && |pwd| <= max
    modifies dst
    ensures i <= |p| && (i < |p| ==> p[i] != '/') && Comps(p[i..]) == Comps(p)
    ensures Holds(dst, if p != "" && p[0] == '/' then [] else cwd, w) && avail == max - w >= 0
  {
    i, w, avail := 0, 0, max;
    assert p[0..] == p;
    if p != "" && p[0] == '/' {
      dst[0] := '/';
      dst[1] := NUL;
      assert dst[..1] == "/";
      i := TrimSlash(p, 0);
    } else {
      CopyFrom(dst, 0, pwd, 0, |pwd|);
      assert dst[..|pwd|] == dst[0..|pwd|] == pwd;
      if |pwd| == 1 {
        RootIsShort(cwd);
      } else {
        w := |pwd|;
        avail := max - |pwd|;
      }
    }
  }

  /** One component, then the rest: one step of EnterAll and of TooLong. */
  lemma OneStep(st: seq<string>, c: string, rest: seq<string>, max: nat)
    ensures EnterAll(st, [c] + rest) == EnterAll(Enter(st, c), rest)
    ensures TooLong(st, [c] + rest, max) <==> |Raw(Enter(st, c))| > max || TooLong(Enter(st, c), rest, max)
  {
    assert ([c] + rest)[1..] == rest;
  }

  /** The component at i: its length, and where the next one starts. */
  method NextName(p: string, i: nat) returns (n: nat, j: nat)
    requires i < |p| && p[i] != '/'
    ensures 0 < n && i + n <= j <= |p| && (j < |p| ==> p[j] != '/') && '/' !in p[i..i + n]
    ensures Comps(p[i..]) == [p[i..i + n]] + Comps(p[j..])
  {
    n := SubPathLen(p, i);
    j := TrimSlash(p, i);
    NextComponent(p, i, n);
  }

  /** The state of the walk at index i of p: dst holds the path of st, the rest is still to be entered. */
  ghost predicate Walking(dst: array<char>, max: nat, p: string, i: nat, w: nat, avail: int, st: seq<string>)
    reads dst
  {
    i <= |p| && (i < |p| ==> p[i] != '/') && Holds(dst, st, w) && AllPlain(st) && avail == max - w >= 0
  }

  /** One round of the loop. */
  method Round(dst: array<char>, max: nat, p: string, i: nat, w0: nat, avail0: int, ghost st0: seq<string>)
    returns (ok: bool, j: nat, w: nat, avail: int, ghost st: seq<string>)
    requires 1 <= max < dst.Length && i < |p| && Walking(dst, max, p, i, w0, avail0, st0)
    modifies dst
    ensures !ok ==> TooLong(st0, Comps(p[i..]), max)
    ensures ok ==> i < j && Walking(dst, max, p, j, w, avail, st)
    ensures ok ==> EnterAll(st, Comps(p[j..])) == EnterAll(st0, Comps(p[i..]))
    ensures ok ==> TooLong(st, Comps(p[j..]), max) == TooLong(st0, Comps(p[i..]), max)
  {
    var n;
    n, j := NextName(p, i);
    OneStep(st0, p[i..i + n], Comps(p[j..]), max);
    st := Enter(st0, p[i..i + n]);
    ok, w, avail := Apply(dst, max, p, i, n, w0, avail0, st0);
  }

  /** _build_path: path, or "/" if none is given, seen from the directory pwd. */
  method BuildPath(dst: array<char>, max: nat, given: bool, path: string, pwd: string, ghost cwd: seq<string>)
    returns (r: int)
    requires 1 <= max < dst.Length
    requires AllPlain(cwd) && pwd == Join(cwd) && |pwd| <= max
    modifies dst
    ensures
      var p := if given then path else "/";
      var s := if p != "" && p[0] == '/' then [] else cwd;
      && r == (if TooLong(s, Comps(p), max) then -ENAMETOOLONG else 0)
      && (r == 0 ==> IsString(dst, Join(EnterAll(s, Comps(p)))))
  {
    var p := if given then path else "/";
    var i, w, avail := Begin(dst, max, p, pwd, cwd);
    ghost var s := if p != "" && p[0] == '/' then [] else cwd;
    ghost var st := s;
    while i < |p|
      invariant Walking(dst, max, p, i, w, avail, st)
      invariant EnterAll(st, Comps(p[i..])) == EnterAll(s, Comps(p))
      invariant TooLong(st, Comps(p[i..]), max) == TooLong(s, Comps(p), max)
      decreases |p| - i
    {
      var ok;
      ok, i, w, avail, st := Round(dst, max, p, i, w, avail, st);
      if !ok {
        return -ENAMETOOLONG;
      }
    }
    assert p[i..] == "";
    return 0;
  }

  lemma NotSpecial(c: string)
    requires c != "" && '/' !in c
    requires !(|c| == 1 && c[0] == '.') && !(|c| == 2 && c[0] == '.' && c[1] == '.')
    ensures Plain(c)
  {
  }

  lemma RawEmpty(st: seq<string>)
    ensures |Raw(st)| == 0 <==> st == []
  {
  }

  lemma RootIsShort(cwd: seq<string>)
    requires AllPlain(cwd) && |Join(cwd)| == 1
    ensures cwd == []
  {
    assert cwd != [] ==> Plain(cwd[|cwd| - 1]);
  }
}

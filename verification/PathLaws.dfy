/** What the components of a path mean for where it leads. */
module PathLaws {
  import opened Paths

  /** Where a path leads from a directory, both as stacks of names. */
  function Resolved(s: seq<string>, p: string): seq<string> {
    EnterAll(s, Comps(p))
  }

  lemma SingleName(c: string)
    requires c != "" && '/' !in c
    ensures Comps(c) == [c]
  {
    assert c + "" == c;
    FirstComponent(c, "");
  }

  /** A path goes on from where its first part leads. */
  lemma ResolvedInTurn(s: seq<string>, p: string, q: string)
    ensures Resolved(s, p + "/" + q) == Resolved(Resolved(s, p), q)
  {
    CompsSplit(p, q);
    EnterAllAppend(s, Comps(p), Comps(q));
  }

  lemma OneName(s: seq<string>, c: string)
    requires c != "" && '/' !in c
    ensures Resolved(s, c) == Enter(s, c)
  {
    SingleName(c);
    assert EnterAll(Enter(s, c), [c][1..]) == Enter(s, c);
  }

  /** A plain name leads one directory further down, to the entry of that name. */
  lemma NameAppends(s: seq<string>, p: string, c: string)
    requires Plain(c)
    ensures Resolved(s, p + "/" + c) == Resolved(s, p) + [c]
  {
    ResolvedInTurn(s, p, c);
    OneName(Resolved(s, p), c);
  }

  /** "." leads nowhere else. */
  lemma DotStays(s: seq<string>, p: string)
    ensures Resolved(s, p + "/.") == Resolved(s, p)
  {
    ResolvedInTurn(s, p, ".");
    OneName(Resolved(s, p), ".");
    assert p + "/" + "." == p + "/.";
  }

  /** ".." leads from a directory to the one it is in, */
  lemma DotDotLeaves(s: seq<string>, p: string, t: seq<string>, c: string)
    requires Resolved(s, p) == t + [c]
    ensures Resolved(s, p + "/..") == t
  {
    ResolvedInTurn(s, p, "..");
    OneName(t + [c], "..");
    assert p + "/" + ".." == p + "/..";
    assert (t + [c])[..|t|] == t;
  }

  /** and stays at the root. */
  lemma DotDotAtRoot(s: seq<string>, p: string)
    requires Resolved(s, p) == []
    ensures Resolved(s, p + "/..") == []
  {
    ResolvedInTurn(s, p, "..");
    OneName([], "..");
    assert p + "/" + ".." == p + "/..";
  }

  /** A name followed by ".." can be left out, wherever it stands in a path. */
  lemma NameAndBack(s: seq<string>, p: string, c: string, q: string)
    requires Plain(c)
    ensures Resolved(s, p + "/" + c + "/.." + "/" + q) == Resolved(s, p + "/" + q)
    ensures Join(Resolved(s, p + "/" + c + "/..")) == Join(Resolved(s, p))
  {
    NameAppends(s, p, c);
    DotDotLeaves(s, p + "/" + c, Resolved(s, p), c);
    ResolvedInTurn(s, p + "/" + c + "/..", q);
    ResolvedInTurn(s, p, q);
  }

  /** Several slashes are one. */
  lemma SlashesCollapse(s: seq<string>, p: string, q: string)
    ensures Resolved(s, p + "/" + ("/" + q)) == Resolved(s, p + "/" + q)
  {
    ResolvedInTurn(s, p, "/" + q);
    ResolvedInTurn(s, p, q);
    assert ("/" + q)[1..] == q;
  }

  /** A path is refused exactly if, after some number of its components, the directory reached has too
      long a path. */
  lemma {:induction false} TooLongIff(s: seq<string>, cs: seq<string>, max: nat)
    ensures TooLong(s, cs, max) <==> exists i :: 0 < i <= |cs| && |Raw(EnterAll(s, cs[..i]))| > max
    decreases |cs|
  {
    if cs != [] {
      var t, rest := Enter(s, cs[0]), cs[1..];
      TooLongIff(t, rest, max);
      forall i | 0 < i <= |cs| ensures EnterAll(s, cs[..i]) == EnterAll(t, rest[..i - 1]) {
        assert cs[..i][1..] == rest[..i - 1];
      }
      if TooLong(t, rest, max) {
        var j :| 0 < j <= |rest| && |Raw(EnterAll(t, rest[..j]))| > max;
        assert |Raw(EnterAll(s, cs[..j + 1]))| > max;
      }
      assert EnterAll(s, cs[..1]) == t by { assert rest[..0] == []; }
      if i :| 0 < i <= |cs| && |Raw(EnterAll(s, cs[..i]))| > max {
        assert rest[..0] == [];
        assert i > 1 ==> |Raw(EnterAll(t, rest[..i - 1]))| > max;
      }
    }
  }
}

/** Passing argv and envp through exec: the strings are flattened into one kernel buffer behind
    tables of offsets, and the offsets become addresses in the new image. */
module ExecArgs {
  import opened Basics
  import opened Frames

  const E2BIG: int := 7

  /** A string of the calling process: where it lies, and its characters without the NUL. */
  datatype Str = Str(addr: nat, text: seq<Byte>)

  ghost predicate StrOk(s: Str) {
    0 < s.addr < U32 && |s.text| < 0x1_0000 && forall i :: 0 <= i < |s.text| ==> s.text[i] != 0
  }

  ghost predicate AllOk(ss: seq<Str>) {
    forall i :: 0 <= i < |ss| ==> StrOk(ss[i])
  }

  // ---------------------------------------------------------------- words in a buffer

  /** The processor stores the highest byte first. */
  function Big(w: nat): (b: seq<Byte>)
    ensures |b| == 4
  {
    var b := Bytes(w);
    [b[3], b[2], b[1], b[0]]
  }

  function WordAt(b: seq<Byte>, at: nat): nat
    requires at + 4 <= |b|
  {
    Word([b[at + 3], b[at + 2], b[at + 1], b[at]])
  }

  function Put(b: seq<Byte>, at: nat, s: seq<Byte>): (r: seq<Byte>)
    requires at + |s| <= |b|
    ensures |r| == |b|
  {
    b[..at] + s + b[at + |s|..]
  }

  lemma WordPut(b: seq<Byte>, at: nat, w: nat)
    requires at + 4 <= |b| && w < U32
    ensures WordAt(Put(b, at, Big(w)), at) == w
  {
    var r := Put(b, at, Big(w));
    assert r[at..at + 4] == Big(w);
    assert [r[at + 3], r[at + 2], r[at + 1], r[at]] == Bytes(w) + [];
    WordOfBytes(w, []);
  }

  /** The two buffers agree from lo to hi. */
  ghost predicate Agree(b: seq<Byte>, c: seq<Byte>, lo: nat, hi: nat) {
    lo <= hi <= |b| == |c| && forall i :: lo <= i < hi ==> b[i] == c[i]
  }

  lemma WordStays(b: seq<Byte>, c: seq<Byte>, lo: nat, hi: nat, at: nat)
    requires Agree(b, c, lo, hi) && lo <= at && at + 4 <= hi
    ensures WordAt(b, at) == WordAt(c, at)
  {
  }

  // ---------------------------------------------------------------- the layout

  /** Where the i-th string goes when the first goes to base. */
  function Off(ss: seq<Str>, base: nat, i: nat): (off: nat)
    requires i <= |ss|
    ensures off >= base + i
  {
    if i == 0 then base else Off(ss, base, i - 1) + |ss[i - 1].text| + 1
  }

  lemma {:induction false} OffGrows(ss: seq<Str>, base: nat, i: nat, j: nat)
    requires i <= j <= |ss|
    ensures Off(ss, base, i) + (j - i) <= Off(ss, base, j)
    ensures i < j ==> Off(ss, base, i) + |ss[i].text| < Off(ss, base, j)
    decreases j
  {
    if i < j { OffGrows(ss, base, i, j - 1); }
  }

  /** A NUL-terminated string in a buffer. */
  ghost predicate StringAt(b: seq<Byte>, off: nat, s: seq<Byte>) {
    off + |s| < |b| && b[off..off + |s|] == s && b[off + |s|] == 0
  }

  /** The first n table entries at at: string i lies at its place, and entry i is its place plus va. */
  ghost predicate Entry(b: seq<Byte>, at: nat, ss: seq<Str>, i: nat, va: nat)
    requires i < |ss|
  {
    at + 4 * i + 4 <= |b| && WordAt(b, at + 4 * i) == va + Off(ss, at + 4 * (|ss| + 1), i)
  }

  ghost predicate Placed(b: seq<Byte>, at: nat, ss: seq<Str>, i: nat)
    requires i < |ss|
  {
    StringAt(b, Off(ss, at + 4 * (|ss| + 1), i), ss[i].text)
  }

  ghost predicate Closed(b: seq<Byte>, at: nat, ss: seq<Str>) {
    at + 4 * (|ss| + 1) <= |b| && WordAt(b, at + 4 * |ss|) == 0
  }

  /** A table of entries, a closing zero, and the strings behind it. */
  ghost predicate Part(b: seq<Byte>, at: nat, ss: seq<Str>, va: nat) {
    && (forall i :: 0 <= i < |ss| ==> Entry(b, at, ss, i, va))
    && (forall i :: 0 <= i < |ss| ==> Placed(b, at, ss, i))
    && Closed(b, at, ss)
  }

  /** The end of a part. */
  function End(ss: seq<Str>, at: nat): nat {
    Off(ss, at + 4 * (|ss| + 1), |ss|)
  }

  // ---------------------------------------------------------------- what the new image sees

  /** The string at an index of the image. */
  function CString(b: seq<Byte>, at: nat): seq<Byte>
    decreases |b| - at
  {
    if at < |b| && b[at] != 0 then [b[at]] + CString(b, at + 1) else []
  }

  /** The strings that the null-terminated table at at points to. */
  function Vector(b: seq<Byte>, at: nat): seq<seq<Byte>>
    decreases |b| - at
  {
    if at + 4 <= |b| && WordAt(b, at) != 0 then [CString(b, WordAt(b, at))] + Vector(b, at + 4) else []
  }

  lemma {:induction false} CStringIs(b: seq<Byte>, off: nat, s: seq<Byte>)
    requires StringAt(b, off, s) && forall i :: 0 <= i < |s| ==> s[i] != 0
    ensures CString(b, off) == s
    decreases |s|
  {
    if s != [] {
      assert b[off..off + |s|][0] == b[off];
      assert b[off..off + |s|][1..] == b[off + 1..off + |s|];
      CStringIs(b, off + 1, s[1..]);
    }
  }

  function Texts(ss: seq<Str>): (ts: seq<seq<Byte>>)
    ensures |ts| == |ss|
  {
    seq(|ss|, i requires 0 <= i < |ss| => ss[i].text)
  }

  /** Following the table of a part yields its strings. */
  lemma {:induction false} VectorIs(b: seq<Byte>, at: nat, ss: seq<Str>, k: nat)
    requires Part(b, at, ss, 0) && AllOk(ss) && k <= |ss|
    ensures Vector(b, at + 4 * k) == Texts(ss)[k..]
    decreases |ss| - k
  {
    if k < |ss| {
      assert Entry(b, at, ss, k, 0) && Placed(b, at, ss, k) && StrOk(ss[k]);
      CStringIs(b, Off(ss, at + 4 * (|ss| + 1), k), ss[k].text);
      VectorIs(b, at, ss, k + 1);
      assert at + 4 * k + 4 == at + 4 * (k + 1);
      assert Texts(ss)[k..] == [ss[k].text] + Texts(ss)[k + 1..];
    } else {
      assert Closed(b, at, ss);
    }
  }

  lemma {:induction false} OffMoves(ss: seq<Str>, base: nat, va: nat, i: nat)
    requires i <= |ss|
    ensures Off(ss, va + base, i) == va + Off(ss, base, i)
  {
    if i > 0 { OffMoves(ss, base, va, i - 1); }
  }

  /** Bytes lo to hi - 1 of b lie in c, va further on. */
  ghost predicate Moved(b: seq<Byte>, c: seq<Byte>, va: nat, lo: nat, hi: nat) {
    lo <= hi <= |b| && va + hi <= |c| && forall i :: lo <= i < hi ==> c[va + i] == b[i]
  }

  lemma WordMoves(b: seq<Byte>, c: seq<Byte>, va: nat, lo: nat, hi: nat, at: nat)
    requires Moved(b, c, va, lo, hi) && lo <= at && at + 4 <= hi
    ensures WordAt(c, va + at) == WordAt(b, at)
  {
    assert c[va + at] == b[at] && c[va + (at + 1)] == b[at + 1];
    assert c[va + (at + 2)] == b[at + 2] && c[va + (at + 3)] == b[at + 3];
  }

  /** A part whose entries are addresses, copied to its address, is a part of the image. */
  lemma PartMoved(b: seq<Byte>, c: seq<Byte>, at: nat, ss: seq<Str>, va: nat, lo: nat, hi: nat)
    requires Part(b, at, ss, va) && Moved(b, c, va, lo, hi) && lo <= at && End(ss, at) <= hi
    ensures Part(c, va + at, ss, 0)
  {
    var to := va + at;
    OffGrows(ss, at + 4 * (|ss| + 1), 0, |ss|);
    forall i | 0 <= i < |ss| ensures Entry(c, to, ss, i, 0) && Placed(c, to, ss, i) {
      EntryMoves(b, c, at, ss, i, va, lo, hi);
    }
    WordMoves(b, c, va, lo, hi, at + 4 * |ss|);
  }

  lemma EntryMoves(b: seq<Byte>, c: seq<Byte>, at: nat, ss: seq<Str>, i: nat, va: nat, lo: nat, hi: nat)
    requires i < |ss| && Entry(b, at, ss, i, va) && Placed(b, at, ss, i)
    requires Moved(b, c, va, lo, hi) && lo <= at && End(ss, at) <= hi
    ensures Entry(c, va + at, ss, i, 0) && Placed(c, va + at, ss, i)
  {
    var base := at + 4 * (|ss| + 1);
    OffGrows(ss, base, i, |ss|);
    OffMoves(ss, base, va, i);
    WordMoves(b, c, va, lo, hi, at + 4 * i);
    StringMoves(b, c, va, lo, hi, Off(ss, base, i), ss[i].text);
  }

  lemma StringMoves(b: seq<Byte>, c: seq<Byte>, va: nat, lo: nat, hi: nat, off: nat, s: seq<Byte>)
    requires StringAt(b, off, s) && Moved(b, c, va, lo, hi) && lo <= off && off + |s| < hi
    ensures StringAt(c, va + off, s)
  {
    var t := c[va + off..va + off + |s|];
    forall i | 0 <= i < |s| ensures t[i] == s[i] {
      assert c[va + (off + i)] == b[off + i] && b[off..off + |s|][i] == s[i];
    }
    assert c[va + (off + |s|)] == b[off + |s|];
  }

  // ---------------------------------------------------------------- filling the buffer

  method PutWord(buf: array<Byte>, at: nat, w: nat)
    requires at + 4 <= buf.Length && w < U32
    modifies buf
    ensures WordAt(buf[..], at) == w
    ensures Agree(old(buf[..]), buf[..], 0, at) && Agree(old(buf[..]), buf[..], at + 4, buf.Length)
  {
    var b := Big(w);
    ghost var r := Put(buf[..], at, b);
    WordPut(buf[..], at, w);
    buf[at], buf[at + 1], buf[at + 2], buf[at + 3] := b[0], b[1], b[2], b[3];
    assert buf[..] == r;
  }

  method GetWord(buf: array<Byte>, at: nat) returns (w: nat)
    requires at + 4 <= buf.Length
    ensures w == WordAt(buf[..], at)
  {
    w := Word([buf[at + 3], buf[at + 2], buf[at + 1], buf[at]]);
  }

  /** Entry i still is the caller's address. */
  ghost predicate Raw(b: seq<Byte>, at: nat, ss: seq<Str>, i: nat)
    requires i < |ss|
  {
    at + 4 * i + 4 <= |b| && WordAt(b, at + 4 * i) == ss[i].addr
  }

  /** The loops that gather a table of addresses, which differ for argv and envp in names only. */
  method Gather(buf: array<Byte>, at: nat, ss: seq<Str>) returns (ok: bool)
    requires at < buf.Length && at % 4 == 0 && buf.Length % 4 == 0 && AllOk(ss)
    modifies buf
    ensures ok <==> at + 4 * |ss| < buf.Length
    ensures ok ==> Closed(buf[..], at, ss) && forall i :: 0 <= i < |ss| ==> Raw(buf[..], at, ss, i)
    ensures Agree(old(buf[..]), buf[..], 0, at)
  {
    var i := 0;
    while i < |ss|
      invariant 0 <= i <= |ss| && at + 4 * i < buf.Length
      invariant forall j :: 0 <= j < i ==> Raw(buf[..], at, ss, j)
      invariant Agree(old(buf[..]), buf[..], 0, at)
    {
      ghost var b := buf[..];
      assert StrOk(ss[i]);
      PutWord(buf, at + 4 * i, ss[i].addr);
      forall j | 0 <= j < i ensures Raw(buf[..], at, ss, j) {
        assert Raw(b, at, ss, j);
        WordStays(b, buf[..], 0, at + 4 * i, at + 4 * j);
      }
      i := i + 1;
      if at + 4 * i >= buf.Length { return false; }
    }
    ghost var b := buf[..];
    PutWord(buf, at + 4 * i, 0);
    forall j | 0 <= j < |ss| ensures Raw(buf[..], at, ss, j) {
      assert Raw(b, at, ss, j);
      WordStays(b, buf[..], 0, at + 4 * i, at + 4 * j);
    }
    ok := true;
  }

  /** strcpy into the buffer. */
  method CopyText(buf: array<Byte>, at: nat, s: seq<Byte>)
    requires at + |s| < buf.Length
    modifies buf
    ensures StringAt(buf[..], at, s)
    ensures Agree(old(buf[..]), buf[..], 0, at)
  {
    var i := 0;
    while i < |s|
      invariant 0 <= i <= |s| && buf[at..at + i] == s[..i]
      invariant Agree(old(buf[..]), buf[..], 0, at)
    {
      buf[at + i] := s[i];
      i := i + 1;
    }
    buf[at + |s|] := 0;
    assert buf[..][at..at + |s|] == s;
  }

  /** The first i strings are in place behind the table, the other entries are raw. */
  ghost predicate Copied(b: seq<Byte>, at: nat, ss: seq<Str>, i: nat)
    requires i <= |ss|
  {
    && (forall j :: 0 <= j < i ==> Entry(b, at, ss, j, 0) && Placed(b, at, ss, j))
    && (forall j :: i <= j < |ss| ==> Raw(b, at, ss, j))
    && Closed(b, at, ss)
  }

  /** Below its place, a string copied to off changes nothing. */
  lemma PlacedStays(b: seq<Byte>, c: seq<Byte>, at: nat, ss: seq<Str>, j: nat, hi: nat)
    requires j < |ss| && Placed(b, at, ss, j) && Agree(b, c, 0, hi)
    requires Off(ss, at + 4 * (|ss| + 1), j) + |ss[j].text| < hi
    ensures Placed(c, at, ss, j)
  {
    var off, s := Off(ss, at + 4 * (|ss| + 1), j), ss[j].text;
    assert c[off..off + |s|] == b[off..off + |s|];
  }

  /** One more string copied, before its entry is written. */
  lemma TextCopied(b: seq<Byte>, c: seq<Byte>, at: nat, ss: seq<Str>, i: nat)
    requires i < |ss| && Copied(b, at, ss, i)
    requires Agree(b, c, 0, Off(ss, at + 4 * (|ss| + 1), i))
    ensures Copied(c, at, ss, i)
  {
    var base := at + 4 * (|ss| + 1);
    var off := Off(ss, base, i);
    forall j | 0 <= j < i ensures Entry(c, at, ss, j, 0) && Placed(c, at, ss, j) {
      assert Entry(b, at, ss, j, 0) && Placed(b, at, ss, j);
      WordStays(b, c, 0, base, at + 4 * j);
      OffGrows(ss, base, j, i);
      PlacedStays(b, c, at, ss, j, off);
    }
    forall j | i <= j < |ss| ensures Raw(c, at, ss, j) {
      assert Raw(b, at, ss, j);
      WordStays(b, c, 0, base, at + 4 * j);
    }
    WordStays(b, c, 0, base, at + 4 * |ss|);
  }

  /** Writing an entry disturbs neither the strings nor the other words of the table. */
  lemma AwayFromEntry(b: seq<Byte>, c: seq<Byte>, at: nat, ss: seq<Str>, i: nat, j: nat)
    requires i < |ss| && j <= |ss| && at + 4 * (|ss| + 1) <= |b|
    requires Agree(b, c, 0, at + 4 * i) && Agree(b, c, at + 4 * i + 4, |b|)
    ensures j < |ss| && Placed(b, at, ss, j) ==> Placed(c, at, ss, j)
    ensures j != i ==> WordAt(c, at + 4 * j) == WordAt(b, at + 4 * j)
  {
    if j < i { WordStays(b, c, 0, at + 4 * i, at + 4 * j); }
    if j > i { WordStays(b, c, at + 4 * i + 4, |b|, at + 4 * j); }
    if j < |ss| && Placed(b, at, ss, j) {
      var off, s := Off(ss, at + 4 * (|ss| + 1), j), ss[j].text;
      assert c[off..off + |s|] == b[off..off + |s|];
    }
  }

  /** An entry written. */
  lemma EntryWritten(b: seq<Byte>, c: seq<Byte>, at: nat, ss: seq<Str>, i: nat)
    requires i < |ss| && Copied(b, at, ss, i) && Placed(b, at, ss, i)
    requires Agree(b, c, 0, at + 4 * i) && Agree(b, c, at + 4 * i + 4, |b|)
    requires WordAt(c, at + 4 * i) == Off(ss, at + 4 * (|ss| + 1), i)
    ensures Copied(c, at, ss, i + 1)
  {
    forall j | 0 <= j < i + 1 ensures Entry(c, at, ss, j, 0) && Placed(c, at, ss, j) {
      assert Placed(b, at, ss, j);
      assert j < i ==> Entry(b, at, ss, j, 0);
      AwayFromEntry(b, c, at, ss, i, j);
    }
    forall j | i + 1 <= j < |ss| ensures Raw(c, at, ss, j) {
      assert Raw(b, at, ss, j);
      AwayFromEntry(b, c, at, ss, i, j);
    }
    AwayFromEntry(b, c, at, ss, i, |ss|);
  }

  /** Copy string i and enter its offset into the table. */
  method CopyOne(buf: array<Byte>, at: nat, ghost ss: seq<Str>, i: nat, text: seq<Byte>, len: nat)
    requires i < |ss| && text == ss[i].text && Copied(buf[..], at, ss, i)
    requires len == Off(ss, at + 4 * (|ss| + 1), i) && len + |text| < buf.Length < 0x1_0000
    modifies buf
    ensures Copied(buf[..], at, ss, i + 1) && Agree(old(buf[..]), buf[..], 0, at)
  {
    ghost var b := buf[..];
    CopyText(buf, len, text);
    TextCopied(b, buf[..], at, ss, i);
    ghost var c := buf[..];
    PutWord(buf, at + 4 * i, len);
    EntryWritten(c, buf[..], at, ss, i);
  }

  /** The loops that copy the strings and replace addresses by offsets. */
  method CopyStrings(buf: array<Byte>, at: nat, ghost ss: seq<Str>, texts: seq<seq<Byte>>) returns (ok: bool, len: nat)
    requires AllOk(ss) && texts == Texts(ss) && Copied(buf[..], at, ss, 0) && buf.Length < 0x1_0000
    modifies buf
    ensures ok <==> End(ss, at) <= buf.Length
    ensures ok ==> Part(buf[..], at, ss, 0) && len == End(ss, at)
    ensures Agree(old(buf[..]), buf[..], 0, at)
  {
    ghost var base := at + 4 * (|ss| + 1);
    len := at + 4 * (|texts| + 1);
    var i := 0;
    ok := true;
    while true
      invariant 0 <= i <= |ss| && Copied(buf[..], at, ss, i) && len == Off(ss, base, i) <= buf.Length
      invariant Agree(old(buf[..]), buf[..], 0, at)
      decreases |ss| - i
    {
      assert i < |ss| ==> Raw(buf[..], at, ss, i) && StrOk(ss[i]);
      var addr := GetWord(buf, at + 4 * i);
      if addr == 0 { break; }
      if len + |texts[i]| >= buf.Length {
        OffGrows(ss, base, i, |ss|);
        return false, len;
      }
      CopyOne(buf, at, ss, i, texts[i], len);
      len := len + |texts[i]| + 1;
      i := i + 1;
    }
  }

  // ---------------------------------------------------------------- flattening and rebasing

  function Align4(n: nat): (a: nat)
    ensures n <= a < n + 4 && a % 4 == 0
  {
    (n + 3) / 4 * 4
  }

  /** Arguments and environment fit into a buffer of size bytes. */
  predicate Fits(argv: seq<Str>, env: Option<seq<Str>>, size: nat) {
    End(argv, 0) <= size && (env.Some? ==> End(env.value, Align4(End(argv, 0))) <= size)
  }

  /** The length of the flattened arguments and environment. */
  function Needed(argv: seq<Str>, env: Option<seq<Str>>): nat {
    var n := Align4(End(argv, 0));
    if env.Some? then End(env.value, n) else n
  }

  /** One table with its strings. */
  method FlattenPart(buf: array<Byte>, at: nat, ss: seq<Str>) returns (ok: bool, len: nat)
    requires at < buf.Length && at % 4 == 0 && buf.Length % 4 == 0 && buf.Length < 0x1_0000 && AllOk(ss)
    modifies buf
    ensures ok <==> End(ss, at) <= buf.Length
    ensures ok ==> Part(buf[..], at, ss, 0) && len == End(ss, at)
    ensures Agree(old(buf[..]), buf[..], 0, at)
  {
    OffGrows(ss, at + 4 * (|ss| + 1), 0, |ss|);
    ok := Gather(buf, at, ss);
    len := 0;
    if ok {
      ok, len := CopyStrings(buf, at, ss, Texts(ss));
    }
  }

  /** _copy_argv_envp: status, used length, and where the environment lies (0: none). */
  method Flatten(buf: array<Byte>, argv: seq<Str>, env: Option<seq<Str>>) returns (status: int, len: nat, envoff: nat)
    requires 0 < buf.Length < 0x1_0000 && buf.Length % 4 == 0
    requires AllOk(argv) && (env.Some? ==> AllOk(env.value))
    requires env.Some? && End(argv, 0) <= buf.Length ==> Align4(End(argv, 0)) < buf.Length
    modifies buf
    ensures status == (if Fits(argv, env, buf.Length) then 0 else -E2BIG)
    ensures status == 0 ==> Part(buf[..], 0, argv, 0) && len == Needed(argv, env) <= buf.Length
    ensures status == 0 ==> envoff == (if env.Some? then Align4(End(argv, 0)) else 0)
    ensures status == 0 && env.Some? ==> Part(buf[..], envoff, env.value, 0)
  {
    envoff := 0;
    var ok;
    ok, len := FlattenPart(buf, 0, argv);
    if !ok { return -E2BIG, len, 0; }
    ghost var b := buf[..];
    len := Align4(len);
    if env.Some? {
      envoff := len;
      ok, len := FlattenPart(buf, envoff, env.value);
      if !ok { return -E2BIG, len, 0; }
      PartStays(b, buf[..], 0, argv, 0, 0, envoff);
    }
    status := 0;
  }

  /** A part depends on its own bytes only. */
  lemma PartStays(b: seq<Byte>, c: seq<Byte>, at: nat, ss: seq<Str>, va: nat, lo: nat, hi: nat)
    requires Part(b, at, ss, va) && Agree(b, c, lo, hi) && lo <= at && End(ss, at) <= hi
    ensures Part(c, at, ss, va)
  {
    var base := at + 4 * (|ss| + 1);
    forall i | 0 <= i < |ss| ensures Entry(c, at, ss, i, va) && Placed(c, at, ss, i) {
      assert Entry(b, at, ss, i, va) && Placed(b, at, ss, i);
      OffGrows(ss, base, i, |ss|);
      WordStays(b, c, lo, hi, at + 4 * i);
      var off, s := Off(ss, base, i), ss[i].text;
      assert c[off..off + |s|] == b[off..off + |s|];
    }
    WordStays(b, c, lo, hi, at + 4 * |ss|);
  }

  ghost predicate Halfway(b: seq<Byte>, at: nat, ss: seq<Str>, j: nat, i: nat, va: nat)
    requires j < |ss|
  {
    Entry(b, at, ss, j, if j < i then va else 0)
  }

  /** The first i entries are addresses, the others still offsets. */
  ghost predicate Rebased(b: seq<Byte>, at: nat, ss: seq<Str>, i: nat, va: nat)
    requires i <= |ss|
  {
    && (forall j :: 0 <= j < |ss| ==> Halfway(b, at, ss, j, i, va))
    && (forall j :: 0 <= j < |ss| ==> Placed(b, at, ss, j))
    && Closed(b, at, ss)
  }

  lemma EntryRebased(b: seq<Byte>, c: seq<Byte>, at: nat, ss: seq<Str>, i: nat, va: nat)
    requires i < |ss| && Rebased(b, at, ss, i, va)
    requires Agree(b, c, 0, at + 4 * i) && Agree(b, c, at + 4 * i + 4, |b|)
    requires WordAt(c, at + 4 * i) == WordAt(b, at + 4 * i) + va
    ensures Rebased(c, at, ss, i + 1, va)
  {
    var n := i + 1;
    forall j | 0 <= j < |ss| ensures Halfway(c, at, ss, j, n, va) {
      assert Halfway(b, at, ss, j, i, va) && Halfway(b, at, ss, i, i, va);
      AwayFromEntry(b, c, at, ss, i, j);
      if j == i {
        assert Entry(b, at, ss, i, 0);
        assert Entry(c, at, ss, i, va);
      } else {
        assert Entry(c, at, ss, j, if j < i then va else 0);
      }
    }
    forall j | 0 <= j < |ss| ensures Placed(c, at, ss, j) {
      assert Placed(b, at, ss, j);
      AwayFromEntry(b, c, at, ss, i, j);
    }
    AwayFromEntry(b, c, at, ss, i, |ss|);
  }

  /** One entry of a table gets its address. */
  method RebaseEntry(buf: array<Byte>, at: nat, n: nat, w: nat, va: nat, ghost ss: seq<Str>)
    requires n < |ss| && Rebased(buf[..], at, ss, n, va) && w + va < U32
    requires at + 4 * (|ss| + 1) <= buf.Length && w == WordAt(buf[..], at + 4 * n)
    modifies buf
    ensures Rebased(buf[..], at, ss, n + 1, va)
    ensures Agree(old(buf[..]), buf[..], 0, at) && Agree(old(buf[..]), buf[..], at + 4 * (|ss| + 1), buf.Length)
  {
    ghost var b := buf[..];
    PutWord(buf, at + 4 * n, w + va);
    EntryRebased(b, buf[..], at, ss, n, va);
  }

  /** The loops of proc_exec that turn a table's offsets into addresses; n is the number of them. */
  method Rebase(buf: array<Byte>, at: nat, va: nat, ghost ss: seq<Str>) returns (n: nat)
    requires Part(buf[..], at, ss, 0) && va + buf.Length < U32
    modifies buf
    ensures n == |ss| && Part(buf[..], at, ss, va)
    ensures Agree(old(buf[..]), buf[..], 0, at) && Agree(old(buf[..]), buf[..], at + 4 * (|ss| + 1), buf.Length)
  {
    n := 0;
    assert Closed(buf[..], at, ss);
    forall j | 0 <= j < |ss| ensures Halfway(buf[..], at, ss, j, 0, va) { assert Entry(buf[..], at, ss, j, 0); }
    while true
      invariant 0 <= n <= |ss| && Rebased(buf[..], at, ss, n, va)
      invariant Agree(old(buf[..]), buf[..], 0, at) && Agree(old(buf[..]), buf[..], at + 4 * (|ss| + 1), buf.Length)
      decreases |ss| - n
    {
      assert n < |ss| ==> Halfway(buf[..], at, ss, n, n, va) && Placed(buf[..], at, ss, n);
      var w := GetWord(buf, at + 4 * n);
      if w == 0 { break; }
      RebaseEntry(buf, at, n, w, va, ss);
      n := n + 1;
    }
    forall j | 0 <= j < |ss| ensures Entry(buf[..], at, ss, j, va) { assert Halfway(buf[..], at, ss, j, n, va); }
  }

  /** copy_to_user: n bytes of the buffer to address va of the image. */
  method CopyToUser(buf: array<Byte>, image: array<Byte>, va: nat, n: nat)
    requires buf != image && n <= buf.Length && va + n <= image.Length
    modifies image
    ensures Moved(buf[..], image[..], va, 0, n)
    ensures forall i :: 0 <= i < image.Length && !(va <= i < va + n) ==> image[i] == old(image[i])
  {
    var k := 0;
    while k < n
      invariant 0 <= k <= n && Moved(buf[..], image[..], va, 0, k)
      invariant forall i :: 0 <= i < image.Length && !(va <= i < va + k) ==> image[i] == old(image[i])
    {
      image[va + k] := buf[k];
      k := k + 1;
    }
  }

  /** What exec hands to the new process: argc, and the addresses of argv and envp (0: none) in its
      image, which has been given room for them from address va on. */
  method Exec(buf: array<Byte>, image: array<Byte>, argv: seq<Str>, env: Option<seq<Str>>, va: nat)
      returns (status: int, argc: nat, vaArgv: nat, vaEnvp: nat)
    requires 0 < buf.Length < 0x1_0000 && buf.Length % 4 == 0 && va + buf.Length < U32 && buf != image
    requires AllOk(argv) && (env.Some? ==> AllOk(env.value))
    requires env.Some? && End(argv, 0) <= buf.Length ==> Align4(End(argv, 0)) < buf.Length
    requires Fits(argv, env, buf.Length) ==> va + Align4(Needed(argv, env)) <= image.Length
    modifies buf, image
    ensures status == (if Fits(argv, env, buf.Length) then 0 else -E2BIG)
    ensures status == 0 ==> argc == |argv| && vaArgv == va && Vector(image[..], vaArgv) == Texts(argv)
    ensures status == 0 ==> (vaEnvp == 0 <==> env.None?)
    ensures status == 0 && env.Some? ==> Vector(image[..], vaEnvp) == Texts(env.value)
    ensures forall i :: 0 <= i < image.Length && !(status == 0 && va <= i < va + Align4(Needed(argv, env))) ==>
              image[i] == old(image[i])
  {
    argc, vaArgv, vaEnvp := 0, va, 0;
    var len, envoff;
    status, len, envoff := Flatten(buf, argv, env);
    if status == 0 {
      argc, vaEnvp := Relocate(buf, argv, env, envoff, va);
      CopyToUser(buf, image, va, Align4(len));
      Follow(buf[..], image[..], argv, va, 0, Align4(len));
      if env.Some? { Follow(buf[..], image[..], env.value, va, envoff, Align4(len)); }
    }
  }

  /** The strings that the process finds by following a table. */
  lemma Follow(b: seq<Byte>, c: seq<Byte>, ss: seq<Str>, va: nat, at: nat, hi: nat)
    requires Part(b, at, ss, va) && AllOk(ss) && Moved(b, c, va, 0, hi) && End(ss, at) <= hi
    ensures Vector(c, va + at) == Texts(ss)
  {
    PartMoved(b, c, at, ss, va, 0, hi);
    VectorIs(c, va + at, ss, 0);
    assert Texts(ss)[0..] == Texts(ss);
  }

  /** proc_exec rebases both tables. */
  method Relocate(buf: array<Byte>, ghost argv: seq<Str>, ghost env: Option<seq<Str>>, envoff: nat, va: nat)
      returns (argc: nat, vaEnvp: nat)
    requires va + buf.Length < U32 && AllOk(argv) && (env.Some? ==> AllOk(env.value))
    requires Part(buf[..], 0, argv, 0) && End(argv, 0) <= buf.Length
    requires if env.Some?
             then envoff >= End(argv, 0) && Part(buf[..], envoff, env.value, 0) && End(env.value, envoff) <= buf.Length
             else envoff == 0
    modifies buf
    ensures argc == |argv| && Part(buf[..], 0, argv, va)
    ensures vaEnvp == if env.None? then 0 else va + envoff
    ensures env.Some? ==> Part(buf[..], envoff, env.value, va)
  {
    ghost var b := buf[..];
    vaEnvp := 0;
    OffGrows(argv, 4 * (|argv| + 1), 0, |argv|);
    argc := Rebase(buf, 0, va, argv);
    if envoff != 0 {
      PartStays(b, buf[..], envoff, env.value, 0, 4 * (|argv| + 1), buf.Length);
      b := buf[..];
      var n := Rebase(buf, envoff, va, env.value);
      PartStays(b, buf[..], 0, argv, va, 0, envoff);
      vaEnvp := va + envoff;
    }
  }
}

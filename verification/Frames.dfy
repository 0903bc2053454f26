/** The serial frames of the remote file system, and the three parsers that read them: the kernel's,
    the bootstrap's, and the server's main loop. */
module Frames {
  import opened Basics

  type Byte = b: int | 0 <= b < 256

  const SOF: Byte := 0x55
  const EOF: Byte := 0xAA

  /** The 8-bit sum of a payload. */
  function Sum(p: seq<Byte>): Byte {
    if p == [] then 0 else Low(Sum(p[..|p| - 1]) as nat + p[|p| - 1] as nat)
  }

  function Frame(p: seq<Byte>): seq<Byte>
    requires |p| < 256
  {
    [SOF, |p|] + p + [Sum(p), EOF]
  }

  function Low(n: nat): Byte {
    n % 256
  }

  /** All bytes of a payload added up. */
  function Total(p: seq<Byte>): nat {
    if p == [] then 0 else p[0] as nat + Total(p[1..])
  }

  lemma {:induction false} TotalOfOneMore(p: seq<Byte>, b: Byte)
    ensures Total(p + [b]) == Total(p) + b as nat
    decreases |p|
  {
    if p == [] {
      assert p + [b] == [b] && [b][1..] == [];
    } else {
      assert (p + [b])[1..] == p[1..] + [b];
      TotalOfOneMore(p[1..], b);
    }
  }

  lemma LowAdds(t: nat, b: nat)
    ensures Low(Low(t) as nat + b) == Low(t + b)
  {
  }

  /** The sum byte is the low byte of the total, in whatever order the bytes come. */
  lemma {:induction false} SumIsTotal(p: seq<Byte>)
    ensures Sum(p) == Low(Total(p))
    decreases |p|
  {
    if p != [] {
      var n := |p| - 1;
      SumIsTotal(p[..n]);
      TotalOfOneMore(p[..n], p[n]);
      LowAdds(Total(p[..n]), p[n]);
      assert p == p[..n] + [p[n]];
    }
  }

  /** The four bytes of a 32-bit word, lowest first, and back. */
  function Bytes(w: nat): (b: seq<Byte>)
    ensures |b| == 4
  {
    [Low(w), Low(w / 0x100), Low(w / 0x1_0000), Low(w / 0x100_0000)]
  }

  function Word(b: seq<Byte>): nat
    requires |b| >= 4
  {
    b[0] as nat + b[1] as nat * 0x100 + b[2] as nat * 0x1_0000 + b[3] as nat * 0x100_0000
  }

  lemma WordOfBytes(w: nat, rest: seq<Byte>)
    ensures Word(Bytes(w) + rest) == w % 0x1_0000_0000
  {
    assert (Bytes(w) + rest)[..4] == Bytes(w);
    DigitSplit(w, 0x100_0000);
    DigitSplit(w / 0x100, 0x1_0000);
    DigitSplit(w / 0x1_0000, 0x100);
    assert w / 0x100 / 0x100 == w / 0x1_0000 && w / 0x1_0000 / 0x100 == w / 0x100_0000;
  }

  lemma DigitSplit(w: nat, m: nat)
    requires m > 0
    ensures w % (0x100 * m) == w % 0x100 + 0x100 * (w / 0x100 % m)
  {
    var h := w / 0x100;
    assert w == w % 0x100 + 0x100 * (h / m * m + h % m);
    assert w == (h / m) * (0x100 * m) + (w % 0x100 + 0x100 * (h % m));
    DivUnique(w, 0x100 * m, h / m, w % 0x100 + 0x100 * (h % m));
  }

  lemma BytesOfWord(b: seq<Byte>)
    requires |b| == 4
    ensures Bytes(Word(b)) == b
  {
    var b0: nat, b1: nat, b2: nat, b3: nat := b[0], b[1], b[2], b[3];
    var w3 := b3;
    var w2 := b2 + 0x100 * w3;
    var w1 := b1 + 0x100 * w2;
    assert Word(b) == b0 + 0x100 * w1;
    assert Word(b) / 0x100 == w1 && w1 / 0x100 == w2 && w2 / 0x100 == w3;
    assert Word(b) / 0x1_0000 == w2 && Word(b) / 0x100_0000 == w3;
  }

  /** No frame is the beginning of another: a stream of frames has one reading. */
  lemma FramesAreUnambiguous(p: seq<Byte>, q: seq<Byte>, r: seq<Byte>, s: seq<Byte>)
    requires |p| < 256 && |q| < 256
    requires Frame(p) + r == Frame(q) + s
    ensures p == q && r == s
  {
    var a, b := Frame(p) + r, Frame(q) + s;
    assert a[1] == |p| && b[1] == |q|;
    assert a[2..2 + |p|] == p && b[2..2 + |q|] == q;
    assert a[|p| + 4..] == r && b[|q| + 4..] == s;
  }

  /** The sum with one byte more. */
  lemma NextSum(p: seq<Byte>, i: nat)
    requires i < |p|
    ensures Sum(p[..i + 1]) == Low(Sum(p[..i]) as nat + p[i] as nat)
  {
    assert p[..i + 1][..i] == p[..i];
  }

  // ---------------------------------------------------------------- sending

  /** _send_msg: the bytes put on the wire for the first n bytes of msg. */
  method SendMsg(msg: seq<Byte>, n: nat) returns (wire: seq<Byte>)
    requires n <= |msg| && n < 256
    ensures wire == Frame(msg[..n])
  {
    wire := [SOF, n];
    var sum: Byte, i := 0, 0;
    while i < n
      invariant 0 <= i <= n
      invariant sum == Sum(msg[..i]) && wire == [SOF, n] + msg[..i]
    {
      NextSum(msg, i);
      OneMoreByte([SOF, n], msg, i);
      sum := Low(sum as nat + msg[i] as nat);
      wire := wire + [msg[i]];
      i := i + 1;
    }
    wire := wire + [sum, EOF];
  }

  lemma OneMoreByte(head: seq<Byte>, msg: seq<Byte>, i: nat)
    requires i < |msg|
    ensures head + msg[..i] + [msg[i]] == head + msg[..i + 1]
  {
    assert msg[..i + 1] == msg[..i] + [msg[i]];
  }

  // ---------------------------------------------------------------- receiving whole frames

  /** The payload of the frame, of at most max bytes, that a stream begins with. */
  function Delivered(rx: seq<Byte>, max: nat): (p: Option<seq<Byte>>)
    ensures p.Some? ==> |p.value| <= max && |p.value| < 256 && |p.value| + 4 <= |rx|
    ensures p.Some? ==> rx[..|p.value| + 4] == Frame(p.value)
  {
    if |rx| < 2 || rx[0] != SOF then None else
    var n: nat := rx[1];
    if n <= max && n + 4 <= |rx| && rx[..n + 4] == Frame(rx[2..2 + n]) then Some(rx[2..2 + n]) else None
  }

  /** A sent payload is delivered, exactly when it is short enough, whatever follows it. */
  lemma SentIsDelivered(p: seq<Byte>, rest: seq<Byte>, max: nat)
    requires |p| < 256
    ensures Delivered(Frame(p) + rest, max) == (if |p| <= max then Some(p) else None)
  {
    var rx := Frame(p) + rest;
    assert rx[1] == |p| && rx[2..2 + |p|] == p && rx[..|p| + 4] == Frame(p);
  }

  /** One wrong byte in the payload or the sum is noticed. */
  lemma OneWrongByte(p: seq<Byte>, k: nat, b: Byte, rest: seq<Byte>, max: nat)
    requires |p| < 256 && 2 <= k < |p| + 3 && b != Frame(p)[k]
    ensures Delivered(Frame(p)[k := b] + rest, max) == None
  {
    var rx := Frame(p)[k := b] + rest;
    assert rx[0] == SOF && rx[1] == |p|;
    var q := rx[2..2 + |p|];
    assert rx[|p| + 2] == Frame(p)[k := b][|p| + 2];
    if k < |p| + 2 {
      assert q == p[k - 2 := b];
      SumNoticesOne(p, k - 2, b);
    } else {
      assert q == p;
    }
    assert Frame(q)[|p| + 2] == Sum(q);
    assert |rx| >= |p| + 4 ==> rx[..|p| + 4][|p| + 2] == rx[|p| + 2];
  }

  lemma {:induction false} SumNoticesOne(p: seq<Byte>, k: nat, b: Byte)
    requires k < |p| && b != p[k]
    ensures Sum(p[k := b]) != Sum(p)
  {
    var q, n := p[k := b], |p| - 1;
    if k == n {
      assert q[..n] == p[..n];
      LowDiffers(Sum(p[..n]), p[n], b);
    } else {
      assert q[..n] == p[..n][k := b];
      SumNoticesOne(p[..n], k, b);
      LowDiffers(p[n], Sum(p[..n]), Sum(q[..n]));
    }
  }

  lemma LowDiffers(x: Byte, y: Byte, z: Byte)
    requires y != z
    ensures Low(x as nat + y as nat) != Low(x as nat + z as nat)
  {
  }

  /** _check_msg: buf holds a well-formed frame. */
  method CheckMsg(buf: array<Byte>) returns (ok: bool)
    requires buf.Length >= 2 && buf[1] + 4 <= buf.Length
    ensures ok <==> buf[..buf[1] + 4] == Frame(buf[2..2 + buf[1]])
  {
    var n := buf[1];
    ghost var p := buf[2..2 + n];
    assert buf[..n + 4] == [buf[0], n] + p + [buf[n + 2], buf[n + 3]];
    if buf[0] != SOF {
      assert Frame(p)[0] == SOF;
      return false;
    }
    var sum: Byte, i := 0, 0;
    while i < n
      invariant 0 <= i <= n && sum == Sum(p[..i])
    {
      NextSum(p, i);
      sum := Low(sum as nat + buf[2 + i] as nat);
      i := i + 1;
    }
    assert p[..n] == p;
    assert Frame(p)[n + 2] == Sum(p) && Frame(p)[n + 3] == EOF;
    return sum == buf[n + 2] && buf[n + 3] == EOF;
  }

  /** The receiving side of a serial line: rx is what has arrived and will arrive before the line
      goes silent. */
  class Line {
    var rx: seq<Byte>

    constructor ()
      ensures rx == []
    {
      rx := [];
    }

    /** A device read of count bytes; it falls short when the line goes silent. */
    method Get(buf: array<Byte>, at: nat, count: nat) returns (n: nat)
      requires at + count <= buf.Length
      modifies this, buf
      ensures n == (if count <= |old(rx)| then count else |old(rx)|)
      ensures rx == old(rx)[n..]
      ensures buf[at..at + n] == old(rx)[..n]
      ensures buf[..at] == old(buf[..at]) && buf[at + n..] == old(buf[at + n..])
    {
      n := if count <= |rx| then count else |rx|;
      forall i | 0 <= i < n { buf[at + i] := rx[i]; }
      rx := rx[n..];
    }

    /** The kernel's _receive_msg. */
    method ReceiveMsg(buf: array<Byte>) returns (ok: bool)
      requires buf.Length == 70
      modifies this, buf
      ensures var p := Delivered(old(rx), 66);
        && (ok <==> p.Some?)
        && (ok ==> buf[..|p.value| + 4] == Frame(p.value) && rx == old(rx)[|p.value| + 4..])
    {
      ghost var all := rx;
      var n := Get(buf, 0, 2);
      if n != 2 { return false; }
      assert buf[..2] == all[..2];
      TwoBytes(buf[..], all);
      if buf[0] != SOF { return false; }
      var len := buf[1];
      if len > 66 { return false; }
      n := Get(buf, 2, len + 2);
      if n != len + 2 { return false; }
      assert buf[..2] == all[..2];
      TwoBytes(buf[..], all);
      assert all[2..][..len + 2] == all[2..len + 4];
      TwoParts(buf[..], all, len + 4);
      ok := CheckMsg(buf);
      assert buf[..][..len + 4] == buf[..len + 4];
      InnerPart(buf[..], all, len + 4, len);
      assert buf[..][2..2 + len] == buf[2..2 + len];
    }
  }

  lemma TwoParts(b: seq<Byte>, c: seq<Byte>, n: nat)
    requires 2 <= n <= |b| && n <= |c| && b[..2] == c[..2] && b[2..n] == c[2..n]
    ensures b[..n] == c[..n]
  {
    assert b[..n] == b[..2] + b[2..n] && c[..n] == c[..2] + c[2..n];
  }

  lemma InnerPart(b: seq<Byte>, c: seq<Byte>, n: nat, len: nat)
    requires 2 + len <= n <= |b| && n <= |c| && b[..n] == c[..n]
    ensures b[2..2 + len] == c[2..2 + len]
  {
    assert b[2..2 + len] == b[..n][2..2 + len] && c[2..2 + len] == c[..n][2..2 + len];
  }

  lemma TwoBytes(b: seq<Byte>, c: seq<Byte>)
    requires |b| >= 2 && |c| >= 2 && b[..2] == c[..2]
    ensures b[0] == c[0] && b[1] == c[1]
  {
    assert b[..2][0] == b[0] && b[..2][1] == b[1];
  }

  // ---------------------------------------------------------------- the bootstrap's parser

  const MAX_PAYLOAD: nat := 128
  const ANY_LEN: Byte := 255

  datatype Reason = BadHead | TooLong | BadLen | BadSum | BadTail

  /** Waiting: the line went silent in the middle. */
  datatype Got = Waiting | Refused(why: Reason) | Payload(bytes: seq<Byte>)

  /** What the bootstrap makes of a stream: the first thing wrong with the frame decides. */
  function Parsed(rx: seq<Byte>, expected: Byte): Got {
    if rx == [] then Waiting
    else if rx[0] != SOF then Refused(BadHead)
    else if |rx| < 2 then Waiting
    else
      var n: nat := rx[1];
      if n > MAX_PAYLOAD then Refused(TooLong)
      else if expected != ANY_LEN && n != expected then Refused(BadLen)
      else if |rx| < n + 3 then Waiting
      else if rx[n + 2] != Sum(rx[2..n + 2]) then Refused(BadSum)
      else if |rx| < n + 4 then Waiting
      else if rx[n + 3] != EOF then Refused(BadTail)
      else Payload(rx[2..n + 2])
  }

  /** The bootstrap accepts exactly what the kernel's rule accepts with its own length limit. */
  lemma ParsersAgree(rx: seq<Byte>, expected: Byte)
    ensures Parsed(rx, expected).Payload? <==>
            var p := Delivered(rx, MAX_PAYLOAD); p.Some? && (expected == ANY_LEN || |p.value| == expected)
    ensures Parsed(rx, expected).Payload? ==> Delivered(rx, MAX_PAYLOAD) == Some(Parsed(rx, expected).bytes)
  {
    if |rx| >= 2 && |rx| >= rx[1] as nat + 4 {
      var n: nat := rx[1];
      var f := Frame(rx[2..2 + n]);
      assert rx[..n + 4] == [rx[0], n] + rx[2..2 + n] + [rx[n + 2], rx[n + 3]];
      assert f[n + 2] == Sum(rx[2..2 + n]) && f[n + 3] == EOF && f[0] == SOF;
      assert rx[..n + 4][0] == rx[0] && rx[..n + 4][n + 2] == rx[n + 2] && rx[..n + 4][n + 3] == rx[n + 3];
    }
  }

  datatype Fsm = FSof | FLen | FPayload | FCks | FEof

  /** The payload state: bytes are stored and summed until there are len of them or no more. */
  method ReadPayload(rx: seq<Byte>, msg: array<Byte>, len: nat) returns (sum: Byte, at: nat)
    requires |rx| >= 2 && len <= msg.Length
    modifies msg
    ensures at == if |rx| < len + 2 then |rx| else len + 2
    ensures at == len + 2 ==> sum == Sum(rx[2..len + 2]) && msg[..len] == rx[2..len + 2]
  {
    sum, at := 0, 2;
    var i := 0;
    while i < len
      invariant 0 <= i <= len && at == 2 + i <= |rx|
      invariant sum == Sum(rx[2..at]) && msg[..i] == rx[2..at]
    {
      if at == |rx| { return; }
      NextSum(rx[2..at + 1], i);
      assert rx[2..at + 1][..i + 1] == rx[2..at + 1] && rx[2..at + 1][..i] == rx[2..at];
      msg[i] := rx[at];
      sum := Low(sum as nat + rx[at] as nat);
      i, at := i + 1, at + 1;
    }
  }

  /** The bootstrap's _receive_msg, one byte after another. */
  method ParseMsg(rx: seq<Byte>, msg: array<Byte>, expected: Byte) returns (got: Got, at: nat)
    requires msg.Length >= MAX_PAYLOAD
    modifies msg
    ensures got == Parsed(rx, expected)
    ensures at <= |rx| && (got.Payload? ==> at == |got.bytes| + 4 && msg[..|got.bytes|] == got.bytes)
  {
    var fsm := FSof;
    var len: nat, sum: Byte := 0, 0;
    at := 0;
    while true
      invariant at <= |rx|
      invariant fsm.FSof? ==> at == 0 && sum == 0
      invariant !fsm.FSof? ==> at >= 1 && rx[0] == SOF
      invariant fsm.FLen? ==> at == 1 && sum == 0
      invariant fsm.FPayload? ==> at == 2 && sum == 0
      invariant fsm.FPayload? || fsm.FCks? || fsm.FEof? ==>
        |rx| >= 2 && len == rx[1] && len <= MAX_PAYLOAD && (expected == ANY_LEN || len == expected)
      invariant fsm.FCks? || fsm.FEof? ==>
        len + 2 <= at && sum == Sum(rx[2..len + 2]) && msg[..len] == rx[2..len + 2]
      invariant fsm.FCks? ==> at == len + 2
      invariant fsm.FEof? ==> at == len + 3 && rx[len + 2] == sum
      decreases |rx| - at, if fsm.FPayload? then 1 else 0
    {
      if !fsm.FPayload? && at == |rx| { return Waiting, at; }
      match fsm
      case FSof =>
        if rx[at] != SOF { return Refused(BadHead), 1; }
        at, fsm := 1, FLen;
      case FLen =>
        len := rx[at];
        at := 2;
        if len > MAX_PAYLOAD { return Refused(TooLong), at; }
        if expected != ANY_LEN && len != expected { return Refused(BadLen), at; }
        fsm := FPayload;
      case FPayload =>
        sum, at := ReadPayload(rx, msg, len);
        if at < len + 2 { return Waiting, at; }
        fsm := FCks;
      case FCks =>
        at := at + 1;
        if rx[at - 1] != sum { return Refused(BadSum), at; }
        fsm := FEof;
      case FEof =>
        at := at + 1;
        if rx[at - 1] != EOF { return Refused(BadTail), at; }
        return Payload(msg[..len]), at;
    }
  }
}

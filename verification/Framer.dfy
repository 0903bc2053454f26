/** The server's framing loop: commands are recovered however the serial port cuts the bytes up, and
    no command is ever made up. */
module Framer {
  import opened Basics
  import opened Frames

  /** What the loop knows: nothing, a start byte, a length and part of a payload, a whole payload,
      a payload whose sum is right. */
  datatype Stage = Sof | Len | Cmd(n: nat, got: seq<Byte>) | Cks(p: seq<Byte>) | Eof(p: seq<Byte>)

  predicate Sound(s: Stage) {
    match s
    case Cmd(n, got) => |got| < n < 256
    case Cks(p) => |p| < 256
    case Eof(p) => |p| < 256
    case _ => true
  }

  /** How many bytes the next read asks for. */
  function Want(s: Stage): (n: nat)
    requires Sound(s)
    ensures n > 0
  {
    if s.Cmd? then s.n - |s.got| else 1
  }

  function Filled(n: nat, got: seq<Byte>): Stage {
    if |got| == n then Cks(got) else Cmd(n, got)
  }

  /** The stage after a read that returned r; an empty r is a timeout. */
  function Feed(s: Stage, r: seq<Byte>): (t: Stage)
    requires Sound(s) && |r| <= Want(s)
    ensures Sound(t)
  {
    match s
    case Sof => if r == [SOF] then Len else Sof
    case Len => if r == [] then Sof else Filled(r[0], [])
    case Cmd(n, got) => Filled(n, got + r)
    case Cks(p) => if r == [Sum(p)] then Eof(p) else Sof
    case Eof(p) => Sof
  }

  /** The command that read completes, if any. */
  function Done(s: Stage, r: seq<Byte>): seq<seq<Byte>> {
    if s.Eof? && r == [EOF] then [s.p] else []
  }

  /** A run of reads none of which returns more than was asked for. */
  ghost predicate Legal(s: Stage, parts: seq<seq<Byte>>)
    requires Sound(s)
    decreases |parts|
  {
    parts != [] ==> |parts[0]| <= Want(s) && Legal(Feed(s, parts[0]), parts[1..])
  }

  /** No read times out right after a start byte, or in front of the sum or the end byte. */
  ghost predicate Prompt(s: Stage, parts: seq<seq<Byte>>)
    requires Sound(s) && Legal(s, parts)
    decreases |parts|
  {
    parts != [] ==> (parts[0] == [] ==> s.Sof? || s.Cmd?) && Prompt(Feed(s, parts[0]), parts[1..])
  }

  ghost function Last(s: Stage, parts: seq<seq<Byte>>): (t: Stage)
    requires Sound(s) && Legal(s, parts)
    ensures Sound(t)
    decreases |parts|
  {
    if parts == [] then s else Last(Feed(s, parts[0]), parts[1..])
  }

  ghost function Commands(s: Stage, parts: seq<seq<Byte>>): seq<seq<Byte>>
    requires Sound(s) && Legal(s, parts)
    decreases |parts|
  {
    if parts == [] then [] else Done(s, parts[0]) + Commands(Feed(s, parts[0]), parts[1..])
  }

  // ---------------------------------------------------------------- the cutting does not matter

  /** The same bytes, one a read. */
  ghost function Stream(s: Stage, bytes: seq<Byte>): seq<seq<Byte>>
    requires Sound(s)
    decreases |bytes|
  {
    if bytes == [] then [] else Done(s, bytes[..1]) + Stream(Feed(s, bytes[..1]), bytes[1..])
  }

  ghost function StreamLast(s: Stage, bytes: seq<Byte>): (t: Stage)
    requires Sound(s)
    ensures Sound(t)
    decreases |bytes|
  {
    if bytes == [] then s else StreamLast(Feed(s, bytes[..1]), bytes[1..])
  }

  lemma {:induction false} StreamJoins(s: Stage, a: seq<Byte>, b: seq<Byte>)
    requires Sound(s)
    ensures StreamLast(s, a + b) == StreamLast(StreamLast(s, a), b)
    ensures Stream(s, a + b) == Stream(s, a) + Stream(StreamLast(s, a), b)
    decreases |a|
  {
    if a == [] {
      assert a + b == b;
    } else {
      assert (a + b)[..1] == a[..1] && (a + b)[1..] == a[1..] + b;
      StreamJoins(Feed(s, a[..1]), a[1..], b);
    }
  }

  /** One read of several bytes is several reads of one. */
  lemma {:induction false} ReadIsStream(s: Stage, r: seq<Byte>)
    requires Sound(s) && 0 < |r| <= Want(s)
    ensures StreamLast(s, r) == Feed(s, r) && Stream(s, r) == Done(s, r)
    decreases |r|
  {
    assert r == r[..1] + r[1..];
    if |r| > 1 {
      var t := Feed(s, r[..1]);
      assert t == Cmd(s.n, s.got + r[..1]);
      ReadIsStream(t, r[1..]);
      assert (s.got + r[..1]) + r[1..] == s.got + r;
    } else {
      assert r[..1] == r;
      assert StreamLast(Feed(s, r), r[1..]) == Feed(s, r);
    }
  }

  /** Prompt reads deliver what the bytes deliver. */
  lemma {:induction false} CuttingIsIrrelevant(s: Stage, parts: seq<seq<Byte>>)
    requires Sound(s) && Legal(s, parts) && Prompt(s, parts)
    ensures Commands(s, parts) == Stream(s, Flat(parts))
    ensures Last(s, parts) == StreamLast(s, Flat(parts))
    decreases |parts|
  {
    if parts != [] {
      var r, t := parts[0], Feed(s, parts[0]);
      CuttingIsIrrelevant(t, parts[1..]);
      if r == [] {
        assert s.Cmd? ==> s.got + r == s.got;
        assert r + Flat(parts[1..]) == Flat(parts[1..]);
      } else {
        ReadIsStream(s, r);
        StreamJoins(s, r, Flat(parts[1..]));
      }
    }
  }

  /** A payload read byte by byte. */
  lemma PayloadIsCollected(n: nat, payload: seq<Byte>)
    requires |payload| == n < 256
    ensures StreamLast(Filled(n, []), payload) == Cks(payload) && Stream(Filled(n, []), payload) == []
  {
    if payload != [] {
      ReadIsStream(Filled(n, []), payload);
      assert [] + payload == payload;
    }
  }

  lemma FrameIsOneCommand(p: seq<Byte>)
    requires |p| < 256
    ensures StreamLast(Sof, Frame(p)) == Sof && Stream(Sof, Frame(p)) == [p]
  {
    var head: seq<Byte>, tail := [SOF, |p|], [Sum(p), EOF];
    assert Frame(p) == head + (p + tail);
    assert head == [SOF] + [|p|] && tail == [Sum(p)] + [EOF];
    TwoReads(Sof, SOF, |p|);
    StreamJoins(Sof, head, p + tail);
    PayloadIsCollected(|p|, p);
    StreamJoins(Filled(|p|, []), p, tail);
    TwoReads(Cks(p), Sum(p), EOF);
  }

  lemma TwoReads(s: Stage, a: Byte, b: Byte)
    requires Sound(s)
    ensures StreamLast(s, [a] + [b]) == Feed(Feed(s, [a]), [b])
    ensures Stream(s, [a] + [b]) == Done(s, [a]) + Done(Feed(s, [a]), [b])
  {
    ReadIsStream(s, [a]);
    ReadIsStream(Feed(s, [a]), [b]);
    StreamJoins(s, [a], [b]);
  }

  ghost predicate AllShort(ps: seq<seq<Byte>>) {
    forall i :: 0 <= i < |ps| ==> |ps[i]| < 256
  }

  function AllFrames(ps: seq<seq<Byte>>): seq<Byte>
    requires AllShort(ps)
    decreases |ps|
  {
    if ps == [] then [] else Frame(ps[0]) + AllFrames(ps[1..])
  }

  lemma {:induction false} FramesAreCommands(ps: seq<seq<Byte>>)
    requires AllShort(ps)
    ensures StreamLast(Sof, AllFrames(ps)) == Sof && Stream(Sof, AllFrames(ps)) == ps
    decreases |ps|
  {
    if ps != [] {
      FrameIsOneCommand(ps[0]);
      StreamJoins(Sof, Frame(ps[0]), AllFrames(ps[1..]));
      FramesAreCommands(ps[1..]);
      assert [ps[0]] + ps[1..] == ps;
    }
  }

  /** However prompt reads cut a stream of frames, the commands are the payloads sent, in order. */
  lemma CommandsAreRecovered(ps: seq<seq<Byte>>, parts: seq<seq<Byte>>)
    requires AllShort(ps) && Legal(Sof, parts) && Prompt(Sof, parts) && Flat(parts) == AllFrames(ps)
    ensures Commands(Sof, parts) == ps && Last(Sof, parts) == Sof
  {
    CuttingIsIrrelevant(Sof, parts);
    FramesAreCommands(ps);
  }

  // ---------------------------------------------------------------- nothing is made up

  /** The bytes of the frame that is under way. */
  function Pending(s: Stage): seq<Byte>
    requires Sound(s)
  {
    match s
    case Sof => []
    case Len => [SOF]
    case Cmd(n, got) => [SOF, n] + got
    case Cks(p) => [SOF, |p|] + p
    case Eof(p) => [SOF, |p|] + p + [Sum(p)]
  }

  /** Junk, a frame, junk, a frame, ..., junk. */
  ghost function Weave(junk: seq<seq<Byte>>, ps: seq<seq<Byte>>): seq<Byte>
    requires |junk| == |ps| + 1 && AllShort(ps)
    decreases |ps|
  {
    if ps == [] then junk[0] else junk[0] + Frame(ps[0]) + Weave(junk[1..], ps[1..])
  }

  /** A read extends the pending bytes, completes a frame, or turns both into junk. */
  lemma OneRead(s: Stage, r: seq<Byte>)
    requires Sound(s) && |r| <= Want(s)
    ensures Done(s, r) != [] ==> |s.p| < 256 && Pending(s) + r == Frame(s.p) && Feed(s, r) == Sof
    ensures Done(s, r) == [] && !Feed(s, r).Sof? ==> Pending(Feed(s, r)) == Pending(s) + r
  {
    match s
    case Cmd(n, got) => assert [SOF, n] + got + r == [SOF, n] + (got + r);
    case Len => assert r != [] ==> r == [r[0]];
    case _ =>
  }

  /** The junk after one more read in front, given the junk of the rest. */
  ghost function MoreJunk(s: Stage, r: seq<Byte>, more: seq<seq<Byte>>): (junk: seq<seq<Byte>>)
    requires Sound(s) && |r| <= Want(s) && more != []
    ensures |junk| == |more| + |Done(s, r)|
  {
    if Done(s, r) != [] then [[]] + more
    else if Feed(s, r).Sof? then [Pending(s) + r + more[0]] + more[1..]
    else more
  }

  lemma WeaveFrame(p: seq<Byte>, more: seq<seq<Byte>>, ps: seq<seq<Byte>>)
    requires |p| < 256 && |more| == |ps| + 1 && AllShort(ps)
    ensures AllShort([p] + ps) && Weave([[]] + more, [p] + ps) == Frame(p) + Weave(more, ps)
  {
    assert ([[]] + more)[1..] == more && ([p] + ps)[1..] == ps;
    assert [] + Frame(p) == Frame(p);
  }

  lemma OneReadWeaves(s: Stage, r: seq<Byte>, more: seq<seq<Byte>>, ps: seq<seq<Byte>>)
    requires Sound(s) && |r| <= Want(s) && |more| == |ps| + 1 && AllShort(ps)
    ensures AllShort(Done(s, r) + ps)
    ensures var t := Feed(s, r);
      Weave(MoreJunk(s, r, more), Done(s, r) + ps) == (if t.Sof? then Pending(s) + r else []) + Weave(more, ps)
  {
    OneRead(s, r);
    if Done(s, r) != [] {
      WeaveFrame(s.p, more, ps);
    } else {
      assert Done(s, r) + ps == ps;
      if Feed(s, r).Sof? { JunkInFront(Pending(s) + r, more, ps); }
    }
  }

  /** For any reads whatever, with timeouts and noise: the bytes read are the frames of the commands
      carried out, in order and not overlapping, with junk between them, then the frame under way. */
  lemma {:induction false} NothingIsMadeUp(s: Stage, parts: seq<seq<Byte>>) returns (junk: seq<seq<Byte>>)
    requires Sound(s) && Legal(s, parts)
    ensures AllShort(Commands(s, parts)) && |junk| == |Commands(s, parts)| + 1
    ensures Pending(s) + Flat(parts) == Weave(junk, Commands(s, parts)) + Pending(Last(s, parts))
    decreases |parts|
  {
    if parts == [] {
      junk := [[]];
    } else {
      var r, t, rest := parts[0], Feed(s, parts[0]), parts[1..];
      var more := NothingIsMadeUp(t, rest);
      junk := MoreJunk(s, r, more);
      OneRead(s, r);
      OneReadWeaves(s, r, more, Commands(t, rest));
      Joined(Pending(s), r, Flat(rest), Pending(t), Weave(more, Commands(t, rest)), Pending(Last(t, rest)), t.Sof?);
    }
  }

  lemma Joined(p: seq<Byte>, r: seq<Byte>, rest: seq<Byte>, q: seq<Byte>, w: seq<Byte>, tail: seq<Byte>, cut: bool)
    requires q + rest == w + tail && q == if cut then [] else p + r
    ensures p + (r + rest) == (if cut then p + r else []) + w + tail
  {
    if cut { assert q + rest == rest; }
    assert p + (r + rest) == (p + r) + rest;
    assert (p + r) + (w + tail) == (p + r) + w + tail;
    assert [] + w == w;
  }

  lemma JunkInFront(x: seq<Byte>, junk: seq<seq<Byte>>, ps: seq<seq<Byte>>)
    requires |junk| == |ps| + 1 && AllShort(ps)
    ensures Weave([x + junk[0]] + junk[1..], ps) == x + Weave(junk, ps)
  {
    var js := [x + junk[0]] + junk[1..];
    assert js[1..] == junk[1..];
    if ps != [] {
      assert x + junk[0] + Frame(ps[0]) + Weave(junk[1..], ps[1..])
          == x + (junk[0] + Frame(ps[0]) + Weave(junk[1..], ps[1..]));
    }
  }

  // ---------------------------------------------------------------- the loop

  datatype State = AtSof | AtLen | AtCmd | AtCks | AtEof

  /** The server's buffer and loop variables. */
  class Server {
    const buf: array<Byte>
    var fsm: State
    var len: nat

    ghost predicate Valid()
      reads this, buf
    {
      && buf.Length == 259 && len <= 255
      && (fsm != AtSof && fsm != AtLen ==> buf[0] == SOF)
      && (fsm.AtLen? ==> buf[0] == SOF && len == 0)
      && (fsm.AtCmd? ==> len < buf[1])
      && (fsm.AtCks? || fsm.AtEof? ==> len == buf[1])
      && (fsm.AtEof? ==> buf[2 + len] == Sum(buf[2..2 + len]))
    }

    ghost function View(): (s: Stage)
      requires Valid()
      reads this, buf
      ensures Sound(s)
    {
      match fsm
      case AtSof => Sof
      case AtLen => Len
      case AtCmd => Cmd(buf[1], buf[2..2 + len])
      case AtCks => Cks(buf[2..2 + len])
      case AtEof => Eof(buf[2..2 + len])
    }

    /** How many bytes the loop's next read asks for. */
    function Asked(): (n: nat)
      requires Valid()
      reads this, buf
      ensures n == Want(View())
    {
      if fsm.AtCmd? then buf[1] - len else 1
    }

    constructor ()
      ensures Valid() && View() == Sof && fresh(buf)
    {
      buf := new Byte[259](_ => 0);
      fsm := AtSof;
      len := 0;
    }

    /** The sum the loop computes over the payload. */
    method PayloadSum() returns (sum: Byte)
      requires buf.Length == 259 && len <= 255
      ensures sum == Sum(buf[2..2 + len])
    {
      sum := 0;
      var i := 0;
      while i < len
        invariant 0 <= i <= len && sum == Sum(buf[2..2 + i])
      {
        ghost var p := buf[2..2 + i + 1];
        NextSum(p, i);
        assert p[..i + 1] == p && p[..i] == buf[2..2 + i];
        sum := Low(sum as nat + buf[2 + i] as nat);
        i := i + 1;
      }
    }

    /** One read's worth of the loop: r is what the port returned. The payload of a completed
        command is handed out. */
    method Step(r: seq<Byte>) returns (cmd: Option<seq<Byte>>)
      requires Valid() && |r| <= Want(View())
      modifies this, buf
      ensures Valid() && View() == Feed(old(View()), r)
      ensures (if cmd.Some? then [cmd.value] else []) == Done(old(View()), r)
    {
      cmd := None;
      match fsm
      case AtSof =>
        len := 0;
        if |r| == 1 {
          buf[0] := r[0];
          if buf[0] == SOF { fsm := AtLen; }
        }
      case AtLen =>
        if |r| == 1 {
          buf[1] := r[0];
          fsm := if buf[1] == 0 then AtCks else AtCmd;
        } else {
          fsm := AtSof;
        }
      case AtCmd =>
        Store(r);
        if len == buf[1] { fsm := AtCks; }
      case AtCks =>
        if |r| == 1 {
          ghost var p := buf[2..2 + len];
          buf[2 + len] := r[0];
          var sum := PayloadSum();
          assert buf[2..2 + len] == p;
          fsm := if sum != buf[2 + len] then AtSof else AtEof;
          assert r == [r[0]];
        } else {
          fsm := AtSof;
        }
      case AtEof =>
        if |r| == 1 {
          assert r == [r[0]];
          ghost var p := buf[2..2 + len];
          buf[2 + len + 1] := r[0];
          assert buf[2..2 + len] == p;
          if buf[2 + len + 1] == EOF {
            cmd := Some(buf[2..2 + len]);
          }
        }
        fsm := AtSof;
    }

    /** read into buf + 2 + len. */
    method Store(r: seq<Byte>)
      requires Valid() && fsm.AtCmd? && len + |r| <= buf[1]
      modifies this`len, buf
      ensures len == old(len) + |r| && buf[2..2 + len] == old(buf[2..2 + len]) + r
      ensures buf[0] == old(buf[0]) && buf[1] == old(buf[1])
    {
      ghost var had := buf[2..2 + len];
      forall i | 0 <= i < |r| { buf[2 + len + i] := r[i]; }
      assert buf[2..2 + len] == had;
      assert buf[2 + len..2 + len + |r|] == r;
      len := len + |r|;
      assert buf[2..2 + len] == had + r;
    }
  }
}

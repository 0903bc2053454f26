/** The audio interrupt's command decoder and its delays, and the conversion of sample counts to
    delays. */
module Dro {
  import opened Frames
  import opened AudioRing
  import opened Basics

  datatype Stage = Register | Delay1 | Delay2Low | Delay2High | Data

  /** The interrupt's variables. */
  datatype Decoder = Decoder(stage: Stage, esc: bool, delay: nat, reg: Byte)

  datatype Write = Write(reg: Byte, value: Byte)

  /** The effect of one byte: the next decoder, the register write if any, and whether to pause. */
  datatype Effect = Effect(d: Decoder, ws: seq<Write>, paused: bool)

  function Decode(d: Decoder, c: Byte): Effect {
    match d.stage
    case Register =>
      if d.esc then Effect(d.(esc := false, reg := c, stage := Data), [], false)
      else if c == 0 then Effect(d.(stage := Delay1), [], false)
      else if c == 1 then Effect(d.(stage := Delay2Low), [], false)
      else if c == 2 || c == 3 then Effect(d, [], false)
      else if c == 4 then Effect(d.(esc := true), [], false)
      else Effect(d.(reg := c, stage := Data), [], false)
    case Delay1 => Effect(d.(delay := c as nat + 1, stage := Register), [], true)
    case Delay2Low => Effect(d.(delay := c, stage := Delay2High), [], false)
    case Delay2High => Effect(d.(delay := (d.delay + c as nat * 0x100 + 1) % 0x1_0000, stage := Register), [], true)
    case Data => Effect(d.(stage := Register), [Write(d.reg, c)], false)
  }

  /** After an interrupt: the decoder, the bytes left in the ring, the register writes made. */
  datatype Outcome = Outcome(d: Decoder, rest: seq<Byte>, ws: seq<Write>)

  /** Bytes are decoded until one pauses or there are no more. */
  function Burst(d: Decoder, bytes: seq<Byte>): Outcome
    decreases |bytes|
  {
    if bytes == [] then Outcome(d.(delay := 0), [], [])
    else
      var e := Decode(d, bytes[0]);
      if e.paused then Outcome(e.d.(delay := (e.d.delay - 1) % 0x1_0000), bytes[1..], e.ws)
      else Writing(e.ws, Burst(e.d, bytes[1..]))
  }

  function Writing(ws: seq<Write>, o: Outcome): Outcome {
    o.(ws := ws + o.ws)
  }

  /** One interrupt. */
  function Tick(d: Decoder, bytes: seq<Byte>): Outcome {
    if d.delay > 0 then Outcome(d.(delay := d.delay - 1), bytes, []) else Burst(d, bytes)
  }

  /** The writes of interrupt t, counted from 0, when all of bytes is in the ring. */
  function Played(d: Decoder, bytes: seq<Byte>, t: nat): seq<Write>
    decreases t
  {
    var o := Tick(d, bytes);
    if t == 0 then o.ws else Played(o.d, o.rest, t - 1)
  }

  // ---------------------------------------------------------------- what a stream means

  /** A register write, plain (register above 4) or escaped; a wait of d + 1 ticks with one byte or with two; a chip
      switch, which is ignored. */
  datatype Command =
    | Plain(w: Write)
    | Escaped(w: Write)
    | Wait(d: Byte)
    | LongWait(low: Byte, high: Byte)
    | Chip(second: bool)

  predicate CommandOk(c: Command) {
    match c
    case Plain(w) => w.reg > 4
    case _ => true
  }

  function Ticks(c: Command): nat {
    match c
    case Wait(d) => d as nat + 1
    case LongWait(low, high) => low as nat + high as nat * 0x100 + 1
    case _ => 0
  }

  function Writes(c: Command): seq<Write> {
    match c
    case Plain(w) => [w]
    case Escaped(w) => [w]
    case _ => []
  }

  function Coded(c: Command): seq<Byte> {
    match c
    case Plain(w) => [w.reg, w.value]
    case Escaped(w) => [4, w.reg, w.value]
    case Wait(d) => [0, d]
    case LongWait(low, high) => [1, low, high]
    case Chip(second) => [if second then 3 else 2]
  }

  function Encoded(cs: seq<Command>): seq<Byte>
    decreases |cs|
  {
    if cs == [] then [] else Coded(cs[0]) + Encoded(cs[1..])
  }

  /** The writes due at time t: each command's writes are due after all the waits before it. */
  function Due(cs: seq<Command>, t: int): seq<Write>
    decreases |cs|
  {
    if cs == [] then []
    else (if t == 0 then Writes(cs[0]) else []) + Due(cs[1..], t - Ticks(cs[0]))
  }

  ghost predicate AllCommandsOk(cs: seq<Command>) {
    forall i :: 0 <= i < |cs| ==> CommandOk(cs[i])
  }

  /** Between two commands, with delay ticks to wait. */
  predicate Idle(d: Decoder, delay: nat) {
    d.stage == Register && !d.esc && d.delay == delay
  }

  lemma {:induction false} NothingDueBefore(cs: seq<Command>, t: int)
    requires t < 0
    ensures Due(cs, t) == []
    decreases |cs|
  {
    if cs != [] { NothingDueBefore(cs[1..], t - Ticks(cs[0])); }
  }

  lemma BurstStep(d: Decoder, c: Byte, rest: seq<Byte>)
    ensures var e := Decode(d, c);
      Burst(d, [c] + rest) ==
        if e.paused then Outcome(e.d.(delay := (e.d.delay - 1) % 0x1_0000), rest, e.ws)
          else Writing(e.ws, Burst(e.d, rest))
  {
    assert ([c] + rest)[0] == c && ([c] + rest)[1..] == rest;
  }

  /** A command that does not wait is carried out and decoding goes on. */
  lemma CommandNow(d: Decoder, c: Command, rest: seq<Byte>) returns (e: Decoder)
    requires Idle(d, 0) && CommandOk(c) && Ticks(c) == 0
    ensures Idle(e, 0) && Burst(d, Coded(c) + rest) == Writing(Writes(c), Burst(e, rest))
  {
    match c
    case Plain(w) =>
      var d1 := Decode(d, w.reg).d;
      e := Decode(d1, w.value).d;
      assert Coded(c) + rest == [w.reg] + ([w.value] + rest);
      BurstStep(d, w.reg, [w.value] + rest);
      BurstStep(d1, w.value, rest);
    case Escaped(w) =>
      var d1 := Decode(d, 4).d;
      var d2 := Decode(d1, w.reg).d;
      e := Decode(d2, w.value).d;
      assert Coded(c) + rest == [4] + ([w.reg] + ([w.value] + rest));
      BurstStep(d, 4, [w.reg] + ([w.value] + rest));
      BurstStep(d1, w.reg, [w.value] + rest);
      BurstStep(d2, w.value, rest);
    case Chip(second) =>
      e := d;
      BurstStep(d, if second then 3 else 2, rest);
  }

  /** A command that waits ends the burst, and leaves one tick less to wait. */
  lemma CommandWaits(d: Decoder, c: Command, rest: seq<Byte>) returns (e: Decoder)
    requires Idle(d, 0) && CommandOk(c) && Ticks(c) > 0
    ensures Idle(e, Ticks(c) - 1) && Burst(d, Coded(c) + rest) == Outcome(e, rest, [])
  {
    match c
    case Wait(k) =>
      var d1 := Decode(d, 0).d;
      e := Decode(d1, k).d.(delay := k);
      assert Coded(c) + rest == [0] + ([k] + rest);
      BurstStep(d, 0, [k] + rest);
      BurstStep(d1, k, rest);
    case LongWait(low, high) =>
      e := LongWaitWaits(d, low, high, rest);
  }

  lemma LongWaitWaits(d: Decoder, low: Byte, high: Byte, rest: seq<Byte>) returns (e: Decoder)
    requires Idle(d, 0)
    ensures Idle(e, low as nat + high as nat * 0x100) && Burst(d, [1, low, high] + rest) == Outcome(e, rest, [])
  {
    var d1 := Decode(d, 1).d;
    var d2 := Decode(d1, low).d;
    var n: nat := low as nat + high as nat * 0x100;
    e := d2.(delay := n, stage := Register);
    assert [1, low, high] + rest == [1] + ([low] + ([high] + rest));
    BurstStep(d, 1, [low] + ([high] + rest));
    BurstStep(d1, low, [high] + rest);
    BurstStep(d2, high, rest);
    assert ((n + 1) % 0x1_0000 - 1) % 0x1_0000 == n;
  }

  /** The writes of a first burst, and what is due later. */
  ghost predicate Begun(d: Decoder, cs: seq<Command>, e: Decoder, wait: nat, more: seq<Command>) {
    && AllCommandsOk(more) && Idle(e, if wait > 0 then wait - 1 else 0)
    && Burst(d, Encoded(cs)) == Outcome(e, Encoded(more), Due(cs, 0))
    && (forall t: nat :: DueLaterOf(cs, more, wait, t))
    && (wait == 0 ==> more == [])
  }

  ghost predicate DueLaterOf(cs: seq<Command>, more: seq<Command>, wait: nat, t: nat) {
    t > 0 ==> Due(cs, t) == Due(more, t - wait)
  }

  /** One burst carries out everything up to the first wait. */
  lemma {:induction false} BurstIsDue(d: Decoder, cs: seq<Command>) returns (e: Decoder, wait: nat, more: seq<Command>)
    requires Idle(d, 0) && AllCommandsOk(cs)
    ensures Begun(d, cs, e, wait, more)
    decreases |cs|
  {
    if cs == [] {
      return d.(delay := 0), 0, [];
    }
    var c, tail := cs[0], cs[1..];
    if Ticks(c) == 0 {
      var d1 := CommandNow(d, c, Encoded(tail));
      e, wait, more := BurstIsDue(d1, tail);
      BegunNow(d, cs, d1, e, wait, more);
    } else {
      e := CommandWaits(d, c, Encoded(tail));
      wait, more := Ticks(c), tail;
      NothingDueBefore(more, 0 - wait);
      DueLater(cs);
      forall t: nat ensures DueLaterOf(cs, more, wait, t) { }
    }
  }

  /** The first command does not wait. */
  lemma BegunNow(d: Decoder, cs: seq<Command>, d1: Decoder, e: Decoder, wait: nat, more: seq<Command>)
    requires cs != [] && Ticks(cs[0]) == 0 && Begun(d1, cs[1..], e, wait, more)
    requires Burst(d, Coded(cs[0]) + Encoded(cs[1..])) == Writing(Writes(cs[0]), Burst(d1, Encoded(cs[1..])))
    ensures Begun(d, cs, e, wait, more)
  {
    DueNow(cs);
    forall t: nat ensures DueLaterOf(cs, more, wait, t) { assert DueLaterOf(cs[1..], more, wait, t); }
  }

  lemma DueNow(cs: seq<Command>)
    requires cs != [] && Ticks(cs[0]) == 0
    ensures Due(cs, 0) == Writes(cs[0]) + Due(cs[1..], 0)
    ensures forall t: nat :: t > 0 ==> Due(cs, t) == Due(cs[1..], t)
  {
    forall t: nat | t > 0 ensures Due(cs, t) == Due(cs[1..], t) {
      assert [] + Due(cs[1..], t) == Due(cs[1..], t);
    }
  }

  lemma DueLater(cs: seq<Command>)
    requires cs != [] && Ticks(cs[0]) > 0
    ensures forall t: nat :: Due(cs, t) == Due(cs[1..], t - Ticks(cs[0]))
  {
    forall t: nat ensures Due(cs, t) == Due(cs[1..], t - Ticks(cs[0])) {
      assert Writes(cs[0]) == [];
      assert [] + Due(cs[1..], t - Ticks(cs[0])) == Due(cs[1..], t - Ticks(cs[0]));
    }
  }

  /** An interrupt that only waits. */
  lemma WaitingTick(d: Decoder, delay: nat, cs: seq<Command>, t: nat) returns (e: Decoder)
    requires Idle(d, delay) && delay > 0
    ensures Idle(e, delay - 1)
    ensures Played(d, Encoded(cs), t) == if t == 0 then [] else Played(e, Encoded(cs), t - 1)
    ensures t == 0 ==> Due(cs, t - delay) == []
  {
    e := d.(delay := delay - 1);
    PlayedStep(d, Encoded(cs), Outcome(e, Encoded(cs), []), t);
    if t == 0 { NothingDueBefore(cs, t - delay); }
  }

  /** An interrupt that decodes. */
  lemma DecodingTick(d: Decoder, cs: seq<Command>, t: nat) returns (e: Decoder, left: nat, more: seq<Command>)
    requires Idle(d, 0) && AllCommandsOk(cs)
    ensures Idle(e, left) && AllCommandsOk(more)
    ensures Played(d, Encoded(cs), t) == if t == 0 then Due(cs, t) else Played(e, Encoded(more), t - 1)
    ensures t > 0 ==> Due(cs, t) == Due(more, t - 1 - left)
  {
    var wait;
    e, wait, more := BurstIsDue(d, cs);
    left := BegunTells(d, cs, e, wait, more, t);
    PlayedStep(d, Encoded(cs), Outcome(e, Encoded(more), Due(cs, 0)), t);
  }

  lemma BegunTells(d: Decoder, cs: seq<Command>, e: Decoder, wait: nat, more: seq<Command>, t: nat) returns (left: nat)
    requires Begun(d, cs, e, wait, more) && Idle(d, 0)
    ensures Idle(e, left) && AllCommandsOk(more)
    ensures Tick(d, Encoded(cs)) == Outcome(e, Encoded(more), Due(cs, 0))
    ensures t > 0 ==> Due(cs, t) == Due(more, t - 1 - left)
  {
    left := if wait > 0 then wait - 1 else 0;
    assert DueLaterOf(cs, more, wait, t);
    if wait > 0 {
      assert t - 1 - left == t - wait;
    } else {
      assert more == [];
    }
  }

  /** Interrupt t performs the writes that are due after t ticks of waiting. */
  ghost predicate OnTime(d: Decoder, delay: nat, cs: seq<Command>, t: nat) {
    Played(d, Encoded(cs), t) == Due(cs, t - delay)
  }

  lemma WaitingOnTime(d: Decoder, delay: nat, cs: seq<Command>, t: nat) returns (e: Decoder)
    requires Idle(d, delay) && delay > 0
    ensures Idle(e, delay - 1)
    ensures (t > 0 ==> OnTime(e, delay - 1, cs, t - 1)) ==> OnTime(d, delay, cs, t)
  {
    e := WaitingTick(d, delay, cs, t);
    assert t - 1 - (delay - 1) == t - delay;
  }

  lemma DecodingOnTime(d: Decoder, cs: seq<Command>, t: nat) returns (e: Decoder, left: nat, more: seq<Command>)
    requires Idle(d, 0) && AllCommandsOk(cs)
    ensures Idle(e, left) && AllCommandsOk(more)
    ensures (t > 0 ==> OnTime(e, left, more, t - 1)) ==> OnTime(d, 0, cs, t)
  {
    e, left, more := DecodingTick(d, cs, t);
  }

  /** Every register write happens exactly at its time: while the ring does not run dry, interrupt t
      performs the writes due after t ticks of waiting, neither earlier nor later. */
  lemma {:induction false} WritesAreOnTime(d: Decoder, delay: nat, cs: seq<Command>, t: nat)
    requires Idle(d, delay) && AllCommandsOk(cs)
    ensures OnTime(d, delay, cs, t)
    decreases t
  {
    if delay > 0 {
      var e := WaitingOnTime(d, delay, cs, t);
      if t > 0 { WritesAreOnTime(e, delay - 1, cs, t - 1); }
    } else {
      var e, left, more := DecodingOnTime(d, cs, t);
      if t > 0 { WritesAreOnTime(e, left, more, t - 1); }
    }
  }

  lemma PlayedStep(d: Decoder, bytes: seq<Byte>, o: Outcome, t: nat)
    requires Tick(d, bytes) == o
    ensures Played(d, bytes, t) == if t == 0 then o.ws else Played(o.d, o.rest, t - 1)
  {
  }

  // ---------------------------------------------------------------- refills between interrupts

  /** The bytes at hand reach to the end of a wait. */
  predicate Pauses(d: Decoder, bytes: seq<Byte>)
    decreases |bytes|
  {
    bytes != [] && (Decode(d, bytes[0]).paused || Pauses(Decode(d, bytes[0]).d, bytes[1..]))
  }

  /** What lies behind the wait that ends a burst does not matter to it. */
  lemma {:induction false} BurstExtends(d: Decoder, bytes: seq<Byte>, more: seq<Byte>)
    requires Pauses(d, bytes)
    ensures Burst(d, bytes + more) == Burst(d, bytes).(rest := Burst(d, bytes).rest + more)
    decreases |bytes|
  {
    var e := Decode(d, bytes[0]);
    assert bytes + more == [bytes[0]] + (bytes[1..] + more) && bytes == [bytes[0]] + bytes[1..];
    BurstStep(d, bytes[0], bytes[1..] + more);
    BurstStep(d, bytes[0], bytes[1..]);
    if !e.paused { BurstExtends(e.d, bytes[1..], more); }
  }

  /** The writes of interrupt t when feeds[i] comes into the ring just before interrupt i. */
  function Fed(d: Decoder, ring: seq<Byte>, feeds: seq<seq<Byte>>, t: nat): seq<Write>
    requires t < |feeds|
    decreases t
  {
    var o := Tick(d, ring + feeds[0]);
    if t == 0 then o.ws else Fed(o.d, o.rest, feeds[1..], t - 1)
  }

  /** Up to interrupt t, each one that decodes finds the end of a wait in the ring, or all that is
      still to come. */
  predicate NeverDry(d: Decoder, ring: seq<Byte>, feeds: seq<seq<Byte>>, t: nat)
    requires t < |feeds|
    decreases t
  {
    var o := Tick(d, ring + feeds[0]);
    && (d.delay > 0 || Pauses(d, ring + feeds[0]) || Flat(feeds[1..]) == [])
    && (t > 0 ==> NeverDry(o.d, o.rest, feeds[1..], t - 1))
  }

  /** Then it does not matter when the bytes came. */
  lemma {:induction false} FedIsPlayed(d: Decoder, ring: seq<Byte>, feeds: seq<seq<Byte>>, t: nat)
    requires t < |feeds| && NeverDry(d, ring, feeds, t)
    ensures Fed(d, ring, feeds, t) == Played(d, ring + Flat(feeds), t)
    decreases t
  {
    var had, tail := ring + feeds[0], Flat(feeds[1..]);
    var o := Tick(d, had);
    assert ring + Flat(feeds) == had + tail;
    assert Tick(d, had + tail) == o.(rest := o.rest + tail) by { TickExtends(d, had, tail); }
    PlayedStep(d, had + tail, o.(rest := o.rest + tail), t);
    if t > 0 { FedIsPlayed(o.d, o.rest, feeds[1..], t - 1); }
  }

  lemma TickExtends(d: Decoder, had: seq<Byte>, tail: seq<Byte>)
    requires d.delay > 0 || Pauses(d, had) || tail == []
    ensures Tick(d, had + tail) == Tick(d, had).(rest := Tick(d, had).rest + tail)
  {
    if tail == [] {
      assert had + tail == had && Tick(d, had).rest + tail == Tick(d, had).rest;
    } else if d.delay == 0 {
      BurstExtends(d, had, tail);
    }
  }

  /** With refills between the interrupts every register write happens exactly at its time, as long as
      no decoding interrupt runs out of bytes before a wait. */
  lemma FedOnTime(d: Decoder, delay: nat, cs: seq<Command>, ring: seq<Byte>, feeds: seq<seq<Byte>>, t: nat)
    requires Idle(d, delay) && AllCommandsOk(cs) && ring + Flat(feeds) == Encoded(cs)
    requires t < |feeds| && NeverDry(d, ring, feeds, t)
    ensures Fed(d, ring, feeds, t) == Due(cs, t - delay)
  {
    FedIsPlayed(d, ring, feeds, t);
    WritesAreOnTime(d, delay, cs, t);
    assert OnTime(d, delay, cs, t);
  }

  /** Bytes lo to hi - 1 of a source. */
  ghost function Span(src: nat -> Byte, lo: nat, hi: nat): seq<Byte>
    requires lo <= hi
  {
    seq(hi - lo, i requires 0 <= i < hi - lo => src(lo + i))
  }

  lemma SpanHead(src: nat -> Byte, lo: nat, hi: nat)
    requires lo < hi
    ensures Span(src, lo, hi) == [src(lo)] + Span(src, lo + 1, hi)
  {
  }

  /** The audio chip's interrupt handler and its variables. */
  class Chip {
    const ring: Ring
    var d: Decoder
    var ws: seq<Write>

    constructor (ring: Ring)
      ensures this.ring == ring && Idle(d, 0) && ws == []
    {
      this.ring := ring;
      d := Decoder(Register, false, 0, 0);
      ws := [];
    }

    /** One byte. */
    method Take(c: Byte) returns (paused: bool)
      modifies this
      ensures var e := Decode(old(d), c); d == e.d && ws == old(ws) + e.ws && paused == e.paused
    {
      paused := false;
      match d.stage
      case Register =>
        if d.esc {
          d := d.(esc := false, reg := c, stage := Data);
        } else {
          match c
          case 0 => d := d.(stage := Delay1);
          case 1 => d := d.(stage := Delay2Low);
          case 2 =>
          case 3 =>
          case 4 => d := d.(esc := true);
          case _ => d := d.(reg := c, stage := Data);
        }
      case Delay1 =>
        d := d.(delay := c as nat + 1, stage := Register);
        paused := true;
      case Delay2Low =>
        d := d.(delay := c, stage := Delay2High);
      case Delay2High =>
        d := d.(delay := (d.delay + c as nat * 0x100 + 1) % 0x1_0000, stage := Register);
        paused := true;
      case Data =>
        ws := ws + [Write(d.reg, c)];
        d := d.(stage := Register);
    }

    /** opl2_interrupt, for a process that exists: one tick on what the ring holds. */
    method Interrupt(ghost src: nat -> Byte)
      requires ring.Valid(src)
      modifies this, ring`rptr, ring`read, ring`out
      ensures ring.Valid(src)
      ensures var o := Tick(old(d), Span(src, old(ring.read), ring.written));
        d == o.d && ws == old(ws) + o.ws && Span(src, ring.read, ring.written) == o.rest
    {
      if d.delay > 0 {
        d := d.(delay := d.delay - 1);
        return;
      }
      ghost var all := Burst(d, Span(src, ring.read, ring.written));
      assert [] + all.ws == all.ws;
      var paused, got := Drain(src, all);
      d := d.(delay := if paused then (d.delay - 1) % 0x1_0000 else 0);
    }

    /** The loop: bytes until a wait or an empty ring. */
    method Drain(ghost src: nat -> Byte, ghost all: Outcome) returns (paused: bool, ghost got: seq<Write>)
      requires ring.Valid(src) && Reached(all, d, Span(src, ring.read, ring.written), [], false)
      modifies this, ring`rptr, ring`read, ring`out
      ensures ring.Valid(src) && ws == old(ws) + got
      ensures all ==
        Outcome(d.(delay := if paused then (d.delay - 1) % 0x1_0000 else 0), Span(src, ring.read, ring.written), got)
    {
      paused, got := false, [];
      var empty := ring.IsEmpty(src);
      while !paused && !empty
        invariant ring.Valid(src) && ws == old(ws) + got && (empty <==> ring.read == ring.written)
        invariant Reached(all, d, Span(src, ring.read, ring.written), got, paused)
        decreases ring.written - ring.read
      {
        ghost var had := got;
        paused, got := Next(src, all, had);
        assert got == had + got[|had|..];
        empty := ring.IsEmpty(src);
      }
      ReachedEnd(all, d, Span(src, ring.read, ring.written), got, paused);
    }

    /** One round of the loop. */
    method Next(ghost src: nat -> Byte, ghost all: Outcome, ghost got0: seq<Write>)
        returns (paused: bool, ghost got: seq<Write>)
      requires ring.Valid(src) && ring.read < ring.written
      requires Reached(all, d, Span(src, ring.read, ring.written), got0, false)
      modifies this, ring`rptr, ring`read, ring`out
      ensures ring.Valid(src) && ring.read == old(ring.read) + 1 && got0 <= got && ws == old(ws) + got[|got0|..]
      ensures Reached(all, d, Span(src, ring.read, ring.written), got, paused)
    {
      SpanHead(src, ring.read, ring.written);
      ReachedNext(all, d, src(ring.read), Span(src, ring.read + 1, ring.written), got0);
      got := got0 + Decode(d, src(ring.read)).ws;
      var c := ring.TakeByte(src);
      paused := Take(c);
    }
  }

  /** A burst that comes to `all` has decoded up to rest and made the writes got. */
  ghost predicate Reached(all: Outcome, d: Decoder, rest: seq<Byte>, got: seq<Write>, paused: bool) {
    all == Writing(got, if paused then Outcome(d.(delay := (d.delay - 1) % 0x1_0000), rest, []) else Burst(d, rest))
  }

  lemma ReachedEnd(all: Outcome, d: Decoder, rest: seq<Byte>, got: seq<Write>, paused: bool)
    requires Reached(all, d, rest, got, paused) && (paused || rest == [])
    ensures all == Outcome(d.(delay := if paused then (d.delay - 1) % 0x1_0000 else 0), rest, got)
  {
    assert got + [] == got;
  }

  lemma ReachedNext(all: Outcome, d: Decoder, c: Byte, rest: seq<Byte>, got: seq<Write>)
    requires Reached(all, d, [c] + rest, got, false)
    ensures var e := Decode(d, c); Reached(all, e.d, rest, got + e.ws, e.paused)
  {
    var e := Decode(d, c);
    BurstStep(d, c, rest);
    if !e.paused { assert (got + e.ws) + Burst(e.d, rest).ws == got + (e.ws + Burst(e.d, rest).ws); }
  }

  /** A two-byte wait whose bytes arrive in different bursts loses its low byte. */
  lemma LongWaitSplit(d: Decoder, low: Byte, high: Byte)
    requires Idle(d, 0)
    ensures var cut := Burst(d, [1, low]);
      Burst(cut.d, [high]).d.delay == Burst(d, [1, low, high]).d.delay <==> low == 0
  {
    var d1 := Decode(d, 1).d;
    assert [1, low] == [1] + ([low] + []);
    BurstStep(d, 1, [low] + []);
    BurstStep(d1, low, []);
    var e := LongWaitWaits(d, low, high, []);
    assert [1, low, high] == [1, low, high] + [] && [high] == [high] + [];
    BurstStep(Burst(d, [1, low]).d, high, []);
  }

  // ---------------------------------------------------------------- samples to delays

  const TEN_MS: nat := 441

  function Times(n: nat, c: Command): seq<Command> {
    if n == 0 then [] else Times(n - 1, c) + [c]
  }

  function TotalTicks(cs: seq<Command>): nat {
    if cs == [] then 0 else TotalTicks(cs[..|cs| - 1]) + Ticks(cs[|cs| - 1])
  }

  /** What is left for one-millisecond waits, in the 16-bit arithmetic of the code. */
  function Tenths(time: nat, error: nat): nat {
    (time % TEN_MS * 10 + error) % 0x1_0000
  }

  /** The waits for a number of samples at 44.1 kHz, given the error so far. */
  function Waits(time: nat, error: nat): seq<Command> {
    Times(time / TEN_MS, Wait(9)) + Times(Tenths(time, error) / TEN_MS, Wait(0))
  }

  lemma TicksOfOneMore(cs: seq<Command>, n: nat, c: Command)
    requires n > 0
    ensures TotalTicks(cs + Times(n, c)) == TotalTicks(cs + Times(n - 1, c)) + Ticks(c)
  {
    var all, less := cs + Times(n, c), cs + Times(n - 1, c);
    assert all == less + [c];
    assert all[..|all| - 1] == less;
  }

  lemma {:induction false} TicksOfTimes(cs: seq<Command>, n: nat, c: Command)
    requires c == Wait(9) || c == Wait(0)
    ensures TotalTicks(cs + Times(n, c)) == TotalTicks(cs) + if c == Wait(9) then 10 * n else n
  {
    if n == 0 {
      assert cs + Times(0, c) == cs;
    } else {
      TicksOfTimes(cs, n - 1, c);
      TicksOfOneMore(cs, n, c);
    }
  }

  /** The milliseconds waited and the error kept make up the samples asked for and the error before,
      exactly when the 16-bit sum does not overflow. */
  lemma PauseIsExactIff(time: nat, error: nat)
    ensures Tenths(time, error) % TEN_MS < TEN_MS
    ensures TEN_MS * TotalTicks(Waits(time, error)) + Tenths(time, error) % TEN_MS == 10 * time + error
            <==> time % TEN_MS * 10 + error < 0x1_0000
  {
    var n, m := time / TEN_MS, Tenths(time, error);
    WaitsTotal(n, m / TEN_MS);
    SplitSample(time, error, n, time % TEN_MS, m);
  }

  /** n waits of ten milliseconds and k of one. */
  lemma WaitsTotal(n: nat, k: nat)
    ensures TotalTicks(Times(n, Wait(9)) + Times(k, Wait(0))) == 10 * n + k
  {
    TicksOfTimes([], n, Wait(9));
    assert [] + Times(n, Wait(9)) == Times(n, Wait(9));
    TicksOfTimes(Times(n, Wait(9)), k, Wait(0));
  }

  lemma SplitSample(time: nat, error: nat, n: nat, r: nat, m: nat)
    requires time == n * TEN_MS + r && m == (r * 10 + error) % 0x1_0000
    ensures TEN_MS * (10 * n + m / TEN_MS) + m % TEN_MS == 10 * time + error <==> r * 10 + error < 0x1_0000
  {
    assert TEN_MS * (m / TEN_MS) + m % TEN_MS == m;
  }

  lemma {:induction false} EncodedAppend(a: seq<Command>, b: seq<Command>)
    ensures Encoded(a + b) == Encoded(a) + Encoded(b)
    decreases |a|
  {
    if a == [] {
      assert a + b == b;
    } else {
      assert (a + b)[1..] == a[1..] + b;
      EncodedAppend(a[1..], b);
    }
  }

  /** The loader that converts a file to decoder commands ahead of time. */
  class Loader {
    const dbuf: array<Byte>
    var dlen: nat
    var timeError: nat

    constructor (size: nat)
      ensures dlen == 0 && timeError == 0 && dbuf.Length == size && fresh(dbuf)
    {
      dbuf := new Byte[size](_ => 0);
      dlen, timeError := 0, 0;
    }

    /** The waits of a pause and the bytes they take. */
    static lemma WaitsAre(time: nat, error: nat, n: nat, m: nat)
      requires n == time / TEN_MS && m == Tenths(time, error)
      ensures |Waits(time, error)| == n + m / TEN_MS
      ensures Encoded(Waits(time, error)) == Pairs(n, 9) + Pairs(m / TEN_MS, 0)
    {
      PairsAreWaits(n, 9);
      PairsAreWaits(m / TEN_MS, 0);
      TimesLength(n, Wait(9));
      TimesLength(m / TEN_MS, Wait(0));
      EncodedAppend(Times(n, Wait(9)), Times(m / TEN_MS, Wait(0)));
    }

    /** _pause, with room for all the waits: without it the loops would not end. */
    method Pause(time0: nat)
      requires time0 < 0x1_0000 && dlen + 2 * |Waits(time0, timeError)| <= dbuf.Length
      modifies this, dbuf
      ensures dlen <= dbuf.Length && dbuf[..dlen] == old(dbuf[..dlen]) + Encoded(Waits(time0, old(timeError)))
      ensures timeError == Tenths(time0, old(timeError)) % TEN_MS
    {
      ghost var had, n, m := dbuf[..dlen], time0 / TEN_MS, Tenths(time0, timeError);
      WaitsAre(time0, timeError, n, m);
      var time := Emit(time0, 9);
      time := Add16(time, timeError);
      assert time == m;
      timeError := Emit(time, 0);
      Joined(had, Pairs(n, 9), Pairs(m / TEN_MS, 0));
    }

    static lemma Joined(a: seq<Byte>, b: seq<Byte>, c: seq<Byte>)
      ensures (a + b) + c == a + (b + c)
    {
    }

    /** time*10 + error in 16 bits. */
    static method Add16(time: nat, error: nat) returns (r: nat)
      requires time < TEN_MS
      ensures r == Tenths(time, error) && time % TEN_MS == time
    {
      r := (time * 10 + error) % 0x1_0000;
    }

    /** One of the two loops. */
    method Emit(time0: nat, d: Byte) returns (time: nat)
      requires dlen + 2 * (time0 / TEN_MS) <= dbuf.Length
      modifies `dlen, dbuf
      ensures time == time0 % TEN_MS && dlen == old(dlen) + 2 * (time0 / TEN_MS)
      ensures dbuf[..dlen] == old(dbuf[..dlen]) + Pairs(time0 / TEN_MS, d)
    {
      time := time0;
      ghost var n, all := 0, time0 / TEN_MS;
      while time >= TEN_MS
        invariant time == time0 - n * TEN_MS && 0 <= n <= all && dlen == old(dlen) + 2 * n <= dbuf.Length
        invariant dbuf[..dlen] == old(dbuf[..dlen]) + Pairs(n, d)
        decreases time
      {
        Put2(0, d);
        time := time - TEN_MS;
        n := n + 1;
      }
    }

    /** Two bytes at the end of the buffer. */
    method Put2(a: Byte, b: Byte)
      requires dlen + 2 <= dbuf.Length
      modifies `dlen, dbuf
      ensures dlen == old(dlen) + 2 && dbuf[..dlen] == old(dbuf[..dlen]) + [a, b]
    {
      dbuf[dlen] := a;
      dbuf[dlen + 1] := b;
      dlen := dlen + 2;
    }
  }

  /** n one-byte waits as bytes. */
  function Pairs(n: nat, d: Byte): seq<Byte> {
    if n == 0 then [] else Pairs(n - 1, d) + [0, d]
  }

  lemma {:induction false} PairsAreWaits(n: nat, d: Byte)
    ensures Encoded(Times(n, Wait(d))) == Pairs(n, d)
  {
    if n > 0 {
      PairsAreWaits(n - 1, d);
      EncodedAppend(Times(n - 1, Wait(d)), [Wait(d)]);
      assert Encoded([Wait(d)]) == [0, d];
    }
  }

  lemma TimesLength(n: nat, c: Command)
    ensures |Times(n, c)| == n
  {
  }
}

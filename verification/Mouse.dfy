/** The packet decoding of kernel/arch/i386/drivers/ps2_mouse.c: three-byte packets taken
    from a byte ring, with resynchronisation on bytes that cannot start a packet. */
module Mouse {
  import opened Bits
  import opened RingProtocol
  import opened ByteRing

  datatype Packet = Packet(dx: int, dy: int, left: bool, right: bool, middle: bool)

  /** `flags & (1 << i)` is not zero. */
  predicate Has(flags: nat, i: nat) { And(flags, Pow2(i)) != 0 }

  predicate IsHeader(b: nat) { Has(b, 3) }

  function Axis(overflow: bool, negative: bool, raw: nat): int
  {
    if overflow then 0 else if negative then raw - 256 else raw
  }

  function Decode(flags: nat, x: nat, y: nat): Packet
  {
    Packet(Axis(Has(flags, 6), Has(flags, 4), x), Axis(Has(flags, 7), Has(flags, 5), y),
           Has(flags, 0), Has(flags, 1), Has(flags, 2))
  }

  /** What a stream of bytes means: the packets in it, the bytes thrown away to get back in
      step, and the incomplete packet at its end. */
  datatype Parsed = Parsed(packets: seq<Packet>, resyncs: nat, rest: seq<nat>)

  function Parse(s: seq<nat>): Parsed
    decreases |s|
  {
    if s == [] then Parsed([], 0, [])
    else if !IsHeader(s[0]) then
      var p := Parse(s[1..]);
      p.(resyncs := p.resyncs + 1)
    else if |s| < 3 then Parsed([], 0, s)
    else
      var p := Parse(s[3..]);
      p.(packets := [Decode(s[0], s[1], s[2])] + p.packets)
  }

  /** Every byte is part of a packet, thrown away, or waiting for the rest of its packet. */
  lemma {:induction false} EveryByteCounted(s: seq<nat>)
    ensures var p := Parse(s);
            |s| == 3 * |p.packets| + p.resyncs + |p.rest| && |p.rest| <= 2 && (p.rest != [] ==> IsHeader(p.rest[0]))
            && |p.rest| <= |s| && p.rest == s[|s| - |p.rest|..]
    decreases |s|
  {
    hide IsHeader, Decode;
    if s != [] && !IsHeader(s[0]) {
      EveryByteCounted(s[1..]);
    } else if |s| >= 3 {
      EveryByteCounted(s[3..]);
    }
  }

  function Join(p: Parsed, q: Parsed): Parsed { Parsed(p.packets + q.packets, p.resyncs + q.resyncs, q.rest) }

  /** Where a stream is cut makes no difference: what is left of the first part is parsed
      with the second. */
  lemma {:induction false} ParseInParts(s: seq<nat>, t: seq<nat>)
    ensures Parse(s + t) == Join(Parse(s), Parse(Parse(s).rest + t))
    decreases |s|
  {
    hide IsHeader, Decode;
    if s == [] {
      assert s + t == t && [] + t == t;
    } else if !IsHeader(s[0]) {
      assert (s + t)[1..] == s[1..] + t;
      ParseInParts(s[1..], t);
    } else if |s| >= 3 {
      assert (s + t)[3..] == s[3..] + t;
      ParseInParts(s[3..], t);
      var p := Parse(s[3..]);
      assert [Decode(s[0], s[1], s[2])] + (p.packets + Parse(p.rest + t).packets)
          == [Decode(s[0], s[1], s[2])] + p.packets + Parse(p.rest + t).packets;
    } else {
      assert Parse(s).packets + Parse(s + t).packets == Parse(s + t).packets;
    }
  }

  lemma ParseNothing(s: seq<nat>)
    requires s == []
    ensures Parse(s) == Parsed([], 0, [])
  {}

  lemma ParseHead(s: seq<nat>)
    ensures s == [] ==> Parse(s) == Parsed([], 0, [])
    ensures s != [] && !IsHeader(s[0]) ==> Parse(s) == Parse(s[1..]).(resyncs := Parse(s[1..]).resyncs + 1)
    ensures s != [] && IsHeader(s[0]) && |s| < 3 ==> Parse(s) == Parsed([], 0, s)
    ensures |s| >= 3 && IsHeader(s[0]) ==>
              Parse(s) == Parse(s[3..]).(packets := [Decode(s[0], s[1], s[2])] + Parse(s[3..]).packets)
  {
    hide IsHeader, Decode;
  }

  /** Moving the front of the waiting bytes over to what was delivered. */
  lemma JoinHead(d: seq<Packet>, r: nat, s: seq<nat>)
    ensures s != [] && !IsHeader(s[0]) ==> Join(Parsed(d, r, []), Parse(s)) == Join(Parsed(d, r + 1, []), Parse(s[1..]))
    ensures Parse(s) == Parsed([], 0, s) ==> Join(Parsed(d, r, []), Parse(s)) == Parsed(d, r, s)
    ensures |s| >= 3 && IsHeader(s[0]) ==>
              Join(Parsed(d, r, []), Parse(s)) == Join(Parsed(d + [Decode(s[0], s[1], s[2])], r, []), Parse(s[3..]))
  {
    hide IsHeader, Decode;
    ParseHead(s);
    hide Parse;
    if |s| >= 3 {
      var x, p := Decode(s[0], s[1], s[2]), Parse(s[3..]);
      assert d + ([x] + p.packets) == d + [x] + p.packets;
    }
    assert d + [] == d;
  }

  // ------------------------------------------------------------ round trip

  /** Packets the wire format can carry: nine-bit signed motion. */
  predicate Carried(p: Packet) { -256 <= p.dx < 256 && -256 <= p.dy < 256 }

  function Raw(d: int): nat
    requires -256 <= d < 256
  {
    if d < 0 then d + 256 else d
  }

  /** The number with these binary digits, lowest first. */
  function Value(ds: seq<bool>): nat { if ds == [] then 0 else Digit(ds[0]) + 2 * Value(ds[1..]) }

  /** The first byte of a packet: buttons, the header bit, two signs, no overflow. */
  function FlagDigits(p: Packet): seq<bool> { [p.left, p.right, p.middle, true, p.dx < 0, p.dy < 0, false, false] }

  function Flags(p: Packet): nat { Value(FlagDigits(p)) }

  function Encode(p: Packet): seq<nat>
    requires Carried(p)
  {
    [Flags(p), Raw(p.dx), Raw(p.dy)]
  }

  function EncodeAll(ps: seq<Packet>): seq<nat>
    requires forall p :: p in ps ==> Carried(p)
  {
    if ps == [] then [] else Encode(ps[0]) + EncodeAll(ps[1..])
  }

  lemma HasIsBit(v: nat, i: nat)
    ensures Has(v, i) <==> Bit(v, i)
  {
    AndOne(v, i);
  }

  lemma {:induction false} HasDigit(ds: seq<bool>, i: nat)
    requires i < |ds|
    ensures Has(Value(ds), i) == ds[i]
  {
    HasIsBit(Value(ds), i);
    BitOfValue(ds, i);
    hide Has;
  }

  lemma {:induction false} BitOfValue(ds: seq<bool>, i: nat)
    requires i < |ds|
    ensures Bit(Value(ds), i) == ds[i]
  {
    assert Value(ds) / 2 == Value(ds[1..]) && Value(ds) % 2 == Digit(ds[0]);
    if i > 0 { BitOfValue(ds[1..], i - 1); }
  }

  /** What three bytes say, digit by digit of the first: an axis that overflowed reads as
      zero, whatever its sign and magnitude, and takes neither the other axis nor the
      buttons with it. */
  lemma DecodeDigits(ds: seq<bool>, x: nat, y: nat)
    requires |ds| == 8 && x < 256 && y < 256
    ensures IsHeader(Value(ds)) == ds[3]
    ensures Decode(Value(ds), x, y) ==
            Packet(if ds[6] then 0 else if ds[4] then x - 256 else x,
                   if ds[7] then 0 else if ds[5] then y - 256 else y, ds[0], ds[1], ds[2])
  {
    hide Has, Value;
    HasDigit(ds, 0); HasDigit(ds, 1); HasDigit(ds, 2); HasDigit(ds, 3);
    HasDigit(ds, 4); HasDigit(ds, 5); HasDigit(ds, 6); HasDigit(ds, 7);
  }

  lemma DecodeEncode(p: Packet)
    requires Carried(p)
    ensures Decode(Flags(p), Raw(p.dx), Raw(p.dy)) == p && IsHeader(Flags(p))
  {
    DecodeDigits(FlagDigits(p), Raw(p.dx), Raw(p.dy));
    hide Value, Decode, IsHeader;
  }

  /** And every packet on the wire is the encoding of what it decodes to, unless it marks
      an overflow. */
  lemma EncodeDecode(ds: seq<bool>, x: nat, y: nat)
    requires |ds| == 8 && ds[3] && !ds[6] && !ds[7] && x < 256 && y < 256
    ensures Carried(Decode(Value(ds), x, y)) && Encode(Decode(Value(ds), x, y)) == [Value(ds), x, y]
  {
    DecodeDigits(ds, x, y);
    hide Value, Decode;
    var p := Decode(Value(ds), x, y);
    assert FlagDigits(p) == ds;
  }

  /** A stream of well-formed packets reads back as itself, with nothing thrown away. */
  lemma {:induction false} ParseEncode(ps: seq<Packet>)
    requires forall p :: p in ps ==> Carried(p)
    ensures Parse(EncodeAll(ps)) == Parsed(ps, 0, [])
  {
    if ps != [] {
      var e := EncodeAll(ps);
      assert e[3..] == EncodeAll(ps[1..]);
      DecodeEncode(ps[0]);
      ParseEncode(ps[1..]);
      hide IsHeader, Decode, Flags;
      assert [ps[0]] + ps[1..] == ps;
    }
  }

  /** Bytes in front that cannot start a packet are thrown away, and no packet is lost. */
  lemma {:induction false} ParseAfterJunk(junk: seq<nat>, ps: seq<Packet>)
    requires (forall p :: p in ps ==> Carried(p)) && forall b :: b in junk ==> !IsHeader(b)
    ensures Parse(junk + EncodeAll(ps)) == Parsed(ps, |junk|, [])
    decreases |junk|
  {
    hide IsHeader;
    if junk == [] {
      assert junk + EncodeAll(ps) == EncodeAll(ps);
      ParseEncode(ps);
    } else {
      assert (junk + EncodeAll(ps))[1..] == junk[1..] + EncodeAll(ps);
      assert junk[0] in junk;
      ParseAfterJunk(junk[1..], ps);
    }
  }

  /** Three bytes as the mouse sends them: the digits of the first, and two magnitudes. */
  datatype Report = Report(left: bool, right: bool, middle: bool, xNegative: bool, yNegative: bool,
                           xOverflow: bool, yOverflow: bool, x: nat, y: nat)

  predicate Sent(m: Report) { m.x < 256 && m.y < 256 }

  function Bytes(m: Report): seq<nat>
  {
    [Value([m.left, m.right, m.middle, true, m.xNegative, m.yNegative, m.xOverflow, m.yOverflow]), m.x, m.y]
  }

  function Meaning(m: Report): Packet
  {
    Packet(if m.xOverflow then 0 else if m.xNegative then m.x - 256 else m.x,
           if m.yOverflow then 0 else if m.yNegative then m.y - 256 else m.y, m.left, m.right, m.middle)
  }

  function Stream(ms: seq<Report>): seq<nat> { if ms == [] then [] else Bytes(ms[0]) + Stream(ms[1..]) }

  function Meanings(ms: seq<Report>): seq<Packet> { seq(|ms|, i requires 0 <= i < |ms| => Meaning(ms[i])) }

  /** Whatever the mouse reports, overflows included, is read as it was meant, one packet for
      each report, once the bytes in front that cannot start one are thrown away. */
  lemma {:induction false} ParseReports(junk: seq<nat>, ms: seq<Report>)
    requires (forall m :: m in ms ==> Sent(m)) && forall b :: b in junk ==> !IsHeader(b)
    ensures Parse(junk + Stream(ms)) == Parsed(Meanings(ms), |junk|, [])
    decreases |junk|, |ms|
  {
    hide IsHeader, Decode, Value, Meaning;
    var s := junk + Stream(ms);
    if junk != [] {
      assert s[1..] == junk[1..] + Stream(ms);
      assert junk[0] in junk;
      ParseReports(junk[1..], ms);
    } else if ms != [] {
      assert s[3..] == [] + Stream(ms[1..]);
      ReportRead(ms[0]);
      ParseReports([], ms[1..]);
      assert [Meaning(ms[0])] + Meanings(ms[1..]) == Meanings(ms);
    }
  }

  lemma ReportRead(m: Report)
    requires Sent(m)
    ensures IsHeader(Bytes(m)[0]) && Decode(Bytes(m)[0], Bytes(m)[1], Bytes(m)[2]) == Meaning(m)
  {
    DecodeDigits([m.left, m.right, m.middle, true, m.xNegative, m.yNegative, m.xOverflow, m.yOverflow], m.x, m.y);
    hide Decode, IsHeader, Value;
  }

  // ------------------------------------------------------------ interrupts between the accesses

  /** The ring, with what the decoding loop has handed on and thrown away so far. */
  datatype Polling = Polling(ring: Machine, delivered: seq<Packet>, resyncs: nat)

  /** One access by the interrupt handler, or the next access of the decoding loop. */
  datatype Move = Handler(step: Step) | Poll

  predicate ByProducer(step: Step)
  {
    step.Offer? || step.ReadTail? || step.TestRoom? || step.WriteSlot? || step.PublishHead?
  }

  /** What `personal_system_2_mouse_try_pop_packet` does next with the bytes it has seen. */
  function Access(c: Consumer): Step
  {
    match c
    case Waiting => Begin
    case HasByte(_, _) => ReadSlot
    case HasTail(_, got) =>
      if got == [] then TestByte
      else if !IsHeader(got[0]) then Advance(1)
      else if |got| < 3 then TestByte
      else Advance(3)
  }

  function Turn(s: Polling, m: Move): Polling
  {
    match m
    case Handler(step) => if ByProducer(step) then s.(ring := Next(s.ring, 8, step)) else s
    case Poll =>
      var c, step := s.ring.consumer, Access(s.ring.consumer);
      var ring := Next(s.ring, 8, step);
      if !step.Advance? then s.(ring := ring)
      else if step.n == 1 then Polling(ring, s.delivered, s.resyncs + 1)
      else Polling(ring, s.delivered + [Decode(c.got[0], c.got[1], c.got[2])], s.resyncs)
  }

  function Turns(s: Polling, ms: seq<Move>): Polling
    decreases |ms|
  {
    if ms == [] then s else Turns(Turn(s, ms[0]), ms[1..])
  }

  function Start(start: nat): Polling { Polling(Reset(8, start), [], 0) }

  /** The bytes seen but not yet taken are a packet in the making. */
  predicate Seen(c: Consumer)
  {
    match c
    case Waiting => true
    case HasTail(_, got) => |got| <= 3 && (|got| > 1 ==> IsHeader(got[0]))
    case HasByte(_, got) => |got| <= 2 && (|got| > 0 ==> IsHeader(got[0]))
  }

  ghost predicate InStep(s: Polling, start: nat)
  {
    && Safe(s.ring, 8, start) && Seen(s.ring.consumer)
    && Parse(s.ring.taken) == Parsed(s.delivered, s.resyncs, [])
  }

  lemma TurnKeeps(s: Polling, start: nat, m: Move)
    requires InStep(s, start)
    ensures InStep(Turn(s, m), start)
  {
    hide Safe, Parse, IsHeader, Decode, Behind, Slot, Plus, Pow2;
    match m
    case Handler(step) => StepSafe(s.ring, 8, start, step);
    case Poll =>
      var step := Access(s.ring.consumer);
      StepSafe(s.ring, 8, start, step);
      if step.Advance? { TakeKeeps(s.ring.taken, s.ring.consumer.got, step.n, s.delivered, s.resyncs); }
  }

  /** Taking a stray byte, or a whole packet, leaves nothing half read. */
  lemma TakeKeeps(taken: seq<nat>, got: seq<nat>, n: nat, d: seq<Packet>, r: nat)
    requires Parse(taken) == Parsed(d, r, []) && n <= |got|
    requires (n == 1 && !IsHeader(got[0])) || (n == 3 && IsHeader(got[0]))
    ensures Parse(taken + got[..n]) ==
            if n == 1 then Parsed(d, r + 1, []) else Parsed(d + [Decode(got[0], got[1], got[2])], r, [])
  {
    hide Parse, IsHeader, Decode;
    var t := got[..n];
    ParseInParts(taken, t);
    assert [] + t == t;
    ParseHead(t);
    ParseHead(t[n..]);
    assert d + [] == d;
  }

  /** Whatever the interleaving of the handler with the decoding loop, what was taken is
      exactly what was delivered and thrown away. */
  lemma {:induction false} EveryPollingInStep(s: Polling, start: nat, ms: seq<Move>)
    requires InStep(s, start)
    ensures InStep(Turns(s, ms), start)
    decreases |ms|
  {
    hide InStep, Turn;
    if ms != [] {
      TurnKeeps(s, start, ms[0]);
      EveryPollingInStep(Turn(s, ms[0]), start, ms[1..]);
    }
  }

  /** Interrupts between the accesses lose and invent nothing: the packets delivered, with
      those in the waiting bytes, are the packets in all the bytes accepted. */
  lemma PollingDelivers(start: nat, ms: seq<Move>)
    requires start < WORD
    ensures var s := Turns(Start(start), ms);
            && |s.ring.taken| == 3 * |s.delivered| + s.resyncs <= |s.ring.accepted|
            && Parse(s.ring.accepted)
               == Join(Parsed(s.delivered, s.resyncs, []), Parse(s.ring.accepted[|s.ring.taken|..]))
  {
    StartInStep(start);
    EveryPollingInStep(Start(start), start, ms);
    var s := Turns(Start(start), ms);
    hide Turns, Start, Parse, Held;
    var taken, ahead := s.ring.taken, s.ring.accepted[|s.ring.taken|..];
    assert s.ring.accepted == taken + ahead;
    ParseInParts(taken, ahead);
    EveryByteCounted(taken);
    assert [] + ahead == ahead;
  }

  lemma StartInStep(start: nat)
    requires start < WORD
    ensures InStep(Start(start), start)
  {
    ResetSafe(8, start);
    hide Safe, Reset;
  }

  /** The decoding loop gives up only when the bytes accepted by then hold no packet that
      was not delivered, and what is left is the beginning of one. */
  lemma GivesUpWhenNone(s: Polling, start: nat)
    requires InStep(s, start) && Access(s.ring.consumer).TestByte?
    ensures Turn(s, Poll).ring.consumer.Waiting? <==>
              Parse(s.ring.accepted) == Parsed(s.delivered, s.resyncs, s.ring.consumer.got)
  {
    hide Parse, IsHeader, Safe, Behind;
    WaitsWhenAllSeen(s.ring, start);
    SeenPart(s.ring, start);
    AllSeen(s.ring.accepted, s.ring.taken, s.ring.consumer.got, s.delivered, s.resyncs);
  }

  /** The test for a further byte fails exactly when every accepted byte was taken or seen. */
  lemma WaitsWhenAllSeen(r: Machine, start: nat)
    requires Safe(r, 8, start) && r.consumer.HasTail?
    ensures Next(r, 8, TestByte).consumer.Waiting? <==> |r.accepted| == |r.taken| + |r.consumer.got|
  {
    hide Behind, Plus, Held, Pow2, ProducerOk;
    CapacityBelowWord(8);
    BehindIs(start, |r.accepted|, |r.taken|);
  }

  lemma SeenPart(r: Machine, start: nat)
    requires Safe(r, 8, start) && r.consumer.HasTail?
    ensures |r.taken| + |r.consumer.got| <= |r.accepted| && r.taken + r.consumer.got <= r.accepted
  {
    hide Behind, Plus, Held, Pow2, ProducerOk, Indexed;
  }

  lemma AllSeen(all: seq<nat>, taken: seq<nat>, got: seq<nat>, d: seq<Packet>, r: nat)
    requires taken + got <= all && Parse(taken) == Parsed(d, r, [])
    requires |got| < 3 && (got != [] ==> IsHeader(got[0]))
    ensures Parse(all) == Parsed(d, r, got) <==> |all| == |taken| + |got|
  {
    hide Parse, IsHeader;
    ParsedLength(taken);
    ParsedLength(all);
    if |all| == |taken| + |got| {
      assert all == taken + got;
      StartOfPacket(taken, got, d, r);
    }
  }

  lemma ParsedLength(s: seq<nat>)
    ensures |s| == 3 * |Parse(s).packets| + Parse(s).resyncs + |Parse(s).rest|
  {
    hide Parse, IsHeader;
    EveryByteCounted(s);
  }

  lemma StartOfPacket(taken: seq<nat>, got: seq<nat>, d: seq<Packet>, r: nat)
    requires Parse(taken) == Parsed(d, r, []) && |got| < 3 && (got != [] ==> IsHeader(got[0]))
    ensures Parse(taken + got) == Parsed(d, r, got)
  {
    hide Parse, IsHeader, Decode;
    ParseInParts(taken, got);
    assert [] + got == got;
    ParseHead(got);
    assert d + [] == d;
  }

  // ------------------------------------------------------------ how many accesses a packet takes

  /** The bytes accepted and not yet taken. */
  function Ahead(r: Machine): seq<nat> { if |r.taken| <= |r.accepted| then r.accepted[|r.taken|..] else [] }

  /** Accesses from the start of an attempt to the first packet in these bytes: four for
      each stray byte in front of it, and eight for itself. */
  function Due(w: seq<nat>): nat { if w == [] then 0 else if IsHeader(w[0]) then 8 else 4 + Due(w[1..]) }

  /** Accesses of the attempt under way that are behind it. */
  function Done(c: Consumer): nat
  {
    match c
    case Waiting => 0
    case HasTail(_, got) => 1 + 2 * |got|
    case HasByte(_, got) => 2 + 2 * |got|
  }

  function Polls(ms: seq<Move>): nat { if ms == [] then 0 else (if ms[0].Poll? then 1 else 0) + Polls(ms[1..]) }

  /** `p` is the first packet in the waiting bytes, and takes `n` more accesses. */
  ghost predicate Expects(s: Polling, start: nat, p: Packet, n: int)
  {
    && InStep(s, start) && Parse(Ahead(s.ring)).packets != [] && Parse(Ahead(s.ring)).packets[0] == p
    && n == Due(Ahead(s.ring)) - Done(s.ring.consumer)
  }

  lemma {:induction false} FirstStays(w: seq<nat>, t: seq<nat>)
    requires Parse(w).packets != []
    ensures Parse(w + t).packets != [] && Parse(w + t).packets[0] == Parse(w).packets[0] && Due(w + t) == Due(w)
    ensures Due(w) <= 4 * |w|
    decreases |w|
  {
    hide IsHeader, Decode;
    if !IsHeader(w[0]) {
      assert (w + t)[1..] == w[1..] + t;
      FirstStays(w[1..], t);
    }
  }

  lemma HandlerExpects(s: Polling, start: nat, step: Step, p: Packet, n: int)
    requires Expects(s, start, p, n)
    ensures Expects(Turn(s, Handler(step)), start, p, n) && Turn(s, Handler(step)).delivered == s.delivered
  {
    TurnKeeps(s, start, Handler(step));
    Enough(s, start);
    HandlerAdds(s, step);
    hide InStep, Parse, Due, Turn;
    var t := Ahead(Turn(s, Handler(step)).ring)[|Ahead(s.ring)|..];
    FirstStays(Ahead(s.ring), t);
  }

  lemma HandlerAdds(s: Polling, step: Step)
    requires |s.ring.taken| <= |s.ring.accepted|
    ensures var t := Turn(s, Handler(step));
            && t.delivered == s.delivered && t.ring.consumer == s.ring.consumer && |Ahead(s.ring)| <= |Ahead(t.ring)|
            && Ahead(t.ring) == Ahead(s.ring) + Ahead(t.ring)[|Ahead(s.ring)|..]
  {
    hide Behind, Slot, Plus, Pow2;
  }

  lemma Enough(s: Polling, start: nat)
    requires InStep(s, start)
    ensures |s.ring.taken| <= |s.ring.accepted| && |Ahead(s.ring)| <= 256
  {
    assert Pow2(8) == 256;
    hide Pow2, Parse, Held;
  }

  /** What was seen of the waiting bytes is their beginning. */
  lemma SeenAhead(s: Polling, start: nat)
    requires InStep(s, start) && !s.ring.consumer.Waiting?
    ensures s.ring.consumer.got <= Ahead(s.ring)
    ensures s.ring.consumer.HasByte? ==> |s.ring.consumer.got| < |Ahead(s.ring)|
  {
    hide Pow2, Parse, Held, Plus, ProducerOk;
  }

  /** A byte that was found is read. */
  lemma ReadMoves(r: Machine, start: nat)
    requires Safe(r, 8, start) && r.consumer.HasByte?
    ensures Next(r, 8, ReadSlot).consumer.HasTail? && |Next(r, 8, ReadSlot).consumer.got| == |r.consumer.got| + 1
  {
    var n := |r.consumer.got|;
    CapacityBelowWord(8);
    NextIndex(start, |r.taken|, n);
    SlotIs(start, |r.taken| + n, 8);
    hide Slot, Plus, Pow2;
  }

  /** An access that takes nothing is one further in the attempt. */
  lemma ReadsOn(s: Polling, start: nat)
    requires InStep(s, start) && !Access(s.ring.consumer).Advance?
    requires s.ring.consumer.HasTail? ==> |s.ring.consumer.got| < |Ahead(s.ring)|
    ensures var t := Turn(s, Poll);
            && t.delivered == s.delivered && Done(t.ring.consumer) == Done(s.ring.consumer) + 1
            && Ahead(t.ring) == Ahead(s.ring)
  {
    hide Safe, Parse, IsHeader, Decode, Behind, Slot, Plus, Pow2;
    if s.ring.consumer.HasByte? { ReadMoves(s.ring, start); }
    if s.ring.consumer.HasTail? { WaitsWhenAllSeen(s.ring, start); }
  }

  /** An access that takes bytes ends the attempt and leaves the others waiting. */
  lemma TakesOn(s: Polling)
    requires Seen(s.ring.consumer) && Access(s.ring.consumer).Advance? && |s.ring.taken| <= |s.ring.accepted|
    requires s.ring.consumer.got <= Ahead(s.ring)
    ensures var t, w, n := Turn(s, Poll), Ahead(s.ring), Access(s.ring.consumer).n;
            && n <= |w| && Ahead(t.ring) == w[n..] && t.ring.consumer.Waiting?
            && (if n == 1 then !IsHeader(w[0]) && t.delivered == s.delivered && Done(s.ring.consumer) == 3
                else n == 3 && IsHeader(w[0]) && t.delivered == s.delivered + [Decode(w[0], w[1], w[2])]
                     && Done(s.ring.consumer) == 7)
  {
    hide IsHeader, Decode, Plus;
  }

  /** The bytes a packet is waiting in are enough to see it. */
  lemma DueHead(w: seq<nat>)
    requires Parse(w).packets != []
    ensures w != [] && (if IsHeader(w[0])
                        then |w| >= 3 && Due(w) == 8 && Parse(w).packets[0] == Decode(w[0], w[1], w[2])
                        else Due(w) == 4 + Due(w[1..]) && Due(w[1..]) >= 8 && Parse(w[1..]).packets == Parse(w).packets)
  {
    hide IsHeader, Decode;
    if !IsHeader(w[0]) { DueEight(w[1..]); }
  }

  lemma {:induction false} DueEight(w: seq<nat>)
    requires Parse(w).packets != []
    ensures Due(w) >= 8
    decreases |w|
  {
    hide IsHeader, Decode;
    if !IsHeader(w[0]) { DueEight(w[1..]); }
  }

  /** Each poll is one access nearer: the last delivers the packet, the others nothing. */
  lemma PollExpects(s: Polling, start: nat, p: Packet, n: int)
    requires Expects(s, start, p, n)
    ensures n >= 1
    ensures n == 1 ==> Turn(s, Poll).delivered == s.delivered + [p]
    ensures n > 1 ==> Turn(s, Poll).delivered == s.delivered && Expects(Turn(s, Poll), start, p, n - 1)
  {
    hide Turn, Parse, Due, IsHeader, Decode, Safe, Ahead;
    TurnKeeps(s, start, Poll);
    Enough(s, start);
    DueHead(Ahead(s.ring));
    var c := s.ring.consumer;
    if !c.Waiting? { SeenAhead(s, start); }
    if Access(c).Advance? { TakesOn(s); } else { ReadsOn(s, start); }
  }

  /** Polling makes progress: from any state the loop can be in, with the handler
      interrupting anywhere, the first packet in the waiting bytes is delivered by exactly
      the access that is due, and before it nothing is. */
  lemma {:induction false} PollingProgress(s: Polling, start: nat, ms: seq<Move>, p: Packet, n: int)
    requires Expects(s, start, p, n)
    ensures n >= 1 && (if Polls(ms) < n then Turns(s, ms).delivered == s.delivered
                       else s.delivered + [p] <= Turns(s, ms).delivered)
    decreases |ms|
  {
    hide Expects, Turn;
    PollExpects(s, start, p, n);
    if ms != [] {
      var t := Turn(s, ms[0]);
      match ms[0]
      case Handler(step) =>
        HandlerExpects(s, start, step, p, n);
        PollingProgress(t, start, ms[1..], p, n);
      case Poll =>
        if n > 1 { PollingProgress(t, start, ms[1..], p, n - 1); } else { DeliveredStays(t, ms[1..]); }
    }
  }

  lemma {:induction false} DeliveredStays(s: Polling, ms: seq<Move>)
    ensures s.delivered <= Turns(s, ms).delivered
    decreases |ms|
  {
    hide Decode, IsHeader;
    if ms != [] { DeliveredStays(Turn(s, ms[0]), ms[1..]); }
  }

  /** So a bounded number of polls is enough: four for each byte that waits, 1024 at most. */
  lemma PollsEnough(s: Polling, start: nat, ms: seq<Move>)
    requires InStep(s, start) && Parse(Ahead(s.ring)).packets != [] && Polls(ms) >= 4 * |Ahead(s.ring)|
    ensures s.delivered + [Parse(Ahead(s.ring)).packets[0]] <= Turns(s, ms).delivered && |Ahead(s.ring)| <= 256
  {
    hide InStep, Turns, Polls, Due;
    var w := Ahead(s.ring);
    FirstStays(w, []);
    Enough(s, start);
    PollingProgress(s, start, ms, Parse(w).packets[0], Due(w) - Done(s.ring.consumer));
  }

  /** One more byte, behind all and behind those waiting. */
  lemma ParseMore(all: seq<nat>, waiting: seq<nat>, d: seq<Packet>, r: nat, byte: nat)
    requires Parse(all) == Join(Parsed(d, r, []), Parse(waiting))
    ensures Parse(all + [byte]) == Join(Parsed(d, r, []), Parse(waiting + [byte]))
  {
    hide Parse;
    ParseInParts(all, [byte]);
    ParseInParts(waiting, [byte]);
    var p, q := Parse(waiting), Parse(Parse(waiting).rest + [byte]);
    assert d + p.packets + q.packets == d + (p.packets + q.packets);
  }

  // ------------------------------------------------------------ the driver

  class Driver {
    const ring: Ring
    var irqs: nat
    var resyncs: nat
    ghost var delivered: seq<Packet>

    /** What was delivered, with what the waiting bytes still hold, is what all the bytes
        accepted so far mean. */
    ghost predicate Valid()
      reads this, ring, ring.bytes
    {
      && ring.Valid() && ring.k == 8
      && Parse(ring.accepted) == Join(Parsed(delivered, resyncs, []), Parse(ring.Contents()))
      && |ring.taken| == 3 * |delivered| + resyncs
    }

    constructor (start: nat)
      requires start < WORD
      ensures Valid() && fresh(ring) && fresh(ring.bytes) && delivered == [] && resyncs == 0 && irqs == 0
    {
      hide Safe, Run, Parse;
      ring := new Ring(8, start);
      irqs, resyncs, delivered := 0, 0, [];
      new;
      ParseNothing(ring.accepted);
    }

    /** `personal_system_2_mouse_interrupt_handler`: the byte is taken only if the status
        says it is there and came from the mouse. */
    method Interrupt(status: nat, byte: nat)
      requires Valid()
      modifies this`irqs, ring, ring.bytes
      ensures Valid() && irqs == old(irqs) + 1 && ring.taken == old(ring.taken)
      ensures !(Bit(status, 5) && Bit(status, 0)) ==> ring.View() == old(ring.View())
      ensures Bit(status, 5) && Bit(status, 0) ==>
                if |old(ring.Contents())| < 256 then
                    ring.accepted == old(ring.accepted) + [byte] && ring.dropped == old(ring.dropped)
                else ring.accepted == old(ring.accepted) && ring.dropped == old(ring.dropped) + 1
    {
      hide Safe, Run, Parse, Has, Bit;
      HasIsBit(status, 5);
      HasIsBit(status, 0);
      irqs := irqs + 1;
      assert Pow2(8) == 256;
      hide Pow2;
      if Has(status, 5) && Has(status, 0) {
        ghost var a, c := ring.accepted, ring.Contents();
        var ok := ring.Push(byte);
        if ok { ParseMore(a, c, delivered, resyncs, byte); }
      }
    }

    /** `personal_system_2_mouse_try_pop_packet` */
    method TryPopPacket() returns (ok: bool, packet: Packet)
      requires Valid()
      modifies this`resyncs, this`delivered, ring`tail, ring`taken
      ensures Valid() && ring.accepted == old(ring.accepted)
      ensures delivered == if ok then old(delivered) + [packet] else old(delivered)
      ensures ok <==> Parse(old(ring.Contents())).packets != []
      ensures ok ==> packet == Parse(old(ring.Contents())).packets[0]
      ensures !ok ==> ring.Contents() == Parse(ring.accepted).rest && delivered == Parse(ring.accepted).packets
                      && resyncs == Parse(ring.accepted).resyncs
    {
      hide Safe, Run, Parse, Decode, IsHeader, Join;
      packet := Packet(0, 0, false, false, false);
      var flags: nat, x: nat, y: nat;
      while true
        invariant Valid() && ring.accepted == old(ring.accepted) && delivered == old(delivered)
        invariant Parse(ring.Contents()).packets == Parse(old(ring.Contents())).packets
        decreases |ring.Contents()|
      {
        ParseHead(ring.Contents());
        JoinHead(delivered, resyncs, ring.Contents());
        ok, flags := ring.Peek(0);
        if !ok {
          return;
        }
        if !IsHeader(flags) {
          ring.Skip(1);
          resyncs := resyncs + 1;
          continue;
        }
        ok, x := ring.Peek(1);
        if ok {
          ok, y := ring.Peek(2);
        }
        if !ok {
          return;
        }
        break;
      }
      ring.Skip(3);
      packet := Decode(flags, x, y);
      delivered := delivered + [packet];
      ok := true;
    }
  }
}

/** The single-producer single-consumer byte rings: the dialogue channel
    (kernel/kernel/dialogue/dialogue_channel.c), the scan-code ring
    (kernel/arch/i386/drivers/keyboard.c) and the mouse ring
    (kernel/arch/i386/drivers/ps2_mouse.c).  Producer and consumer take one memory access
    per step, in any interleaving; both indices are free-running 32-bit counters. */
module RingProtocol {
  import opened Bits

  /** Between two accesses of the producer: index read, both read, room found, slot written. */
  datatype Producer =
    | Idle
    | HasHead(byte: nat, head: nat)
    | HasBoth(byte: nat, head: nat, tail: nat)
    | HasRoom(byte: nat, head: nat)
    | Wrote(byte: nat, head: nat)

  /** Between two accesses of the consumer: `got` are the bytes read from `tail` on. */
  datatype Consumer =
    | Waiting
    | HasTail(tail: nat, got: seq<nat>)
    | HasByte(tail: nat, got: seq<nat>)

  /** The shared memory, the two sides, and what either side has completed so far. */
  datatype Machine = Machine(slots: seq<nat>, head: nat, tail: nat, producer: Producer, consumer: Consumer,
                             accepted: seq<nat>, dropped: nat, taken: seq<nat>)

  /** One access by either side; `Advance(n)` publishes a tail `n` bytes further. */
  datatype Step =
    | Offer(byte: nat) | ReadTail | TestRoom | WriteSlot | PublishHead
    | Begin | TestByte | ReadSlot | Advance(n: nat)

  /** The slot of index `i` in a ring of 2^k bytes. */
  function Slot(i: nat, k: nat): nat { And(i, Pow2(k) - 1) }

  /** An index moved on by `n`. */
  function Plus(i: nat, n: nat): nat { (i + n) % WORD }

  /** The 32-bit difference of two indices. */
  function Behind(head: nat, tail: nat): nat { (head + WORD - tail % WORD) % WORD }

  function Reset(k: nat, start: nat): Machine
  {
    Machine(seq(Pow2(k), i => 0), start, start, Idle, Waiting, [], 0, [])
  }

  function Next(s: Machine, k: nat, step: Step): Machine
  {
    match step
    case Offer(b) => if s.producer.Idle? then s.(producer := HasHead(b, s.head)) else s
    case ReadTail =>
      if s.producer.HasHead? then s.(producer := HasBoth(s.producer.byte, s.producer.head, s.tail)) else s
    case TestRoom =>
      if !s.producer.HasBoth? then s
      else if Behind(s.producer.head, s.producer.tail) >= Pow2(k) then s.(producer := Idle, dropped := s.dropped + 1)
      else s.(producer := HasRoom(s.producer.byte, s.producer.head))
    case WriteSlot =>
      if s.producer.HasRoom? && Slot(s.producer.head, k) < |s.slots| then
        s.(slots := s.slots[Slot(s.producer.head, k) := s.producer.byte],
           producer := Wrote(s.producer.byte, s.producer.head))
      else s
    case PublishHead =>
      if s.producer.Wrote? then
        s.(head := Plus(s.producer.head, 1), producer := Idle, accepted := s.accepted + [s.producer.byte])
      else s
    case Begin => if s.consumer.Waiting? then s.(consumer := HasTail(s.tail, [])) else s
    case TestByte =>
      if !s.consumer.HasTail? then s
      else if Behind(s.head, s.consumer.tail) > |s.consumer.got| then
        s.(consumer := HasByte(s.consumer.tail, s.consumer.got))
      else s.(consumer := Waiting)
    case ReadSlot =>
      if s.consumer.HasByte? && Slot(Plus(s.consumer.tail, |s.consumer.got|), k) < |s.slots| then
        s.(consumer := HasTail(s.consumer.tail,
                                s.consumer.got + [s.slots[Slot(Plus(s.consumer.tail, |s.consumer.got|), k)]]))
      else s
    case Advance(n) =>
      if s.consumer.HasTail? && n <= |s.consumer.got| then
        s.(tail := Plus(s.consumer.tail, n), consumer := Waiting, taken := s.taken + s.consumer.got[..n])
      else s
  }

  function Run(s: Machine, k: nat, steps: seq<Step>): Machine
    decreases |steps|
  {
    if steps == [] then s else Run(Next(s, k, steps[0]), k, steps[1..])
  }

  // ------------------------------------------------------------ the invariant

  ghost predicate Indexed(i: nat, start: nat, n: nat) { i == Plus(start, n) }

  /** The slot of byte `i` of the history. */
  ghost function At(start: nat, i: nat, k: nat): (r: nat)
    ensures r < Pow2(k)
  {
    (start + i) % Pow2(k)
  }

  /** Bytes `lo` to `hi` of the history are still in their slots. */
  ghost predicate Held(slots: seq<nat>, k: nat, start: nat, h: seq<nat>, lo: nat, hi: nat)
  {
    |slots| == Pow2(k) && hi <= |h| && forall i :: lo <= i < hi ==> slots[At(start, i, k)] == h[i]
  }

  ghost predicate Memory(s: Machine, k: nat, start: nat)
  {
    && Indexed(s.head, start, |s.accepted|) && Indexed(s.tail, start, |s.taken|)
    && |s.taken| <= |s.accepted| <= |s.taken| + Pow2(k)
    && s.taken == s.accepted[..|s.taken|]
    && Held(s.slots, k, start, s.accepted, |s.taken|, |s.accepted|)
  }

  ghost predicate ProducerOk(s: Machine, k: nat, start: nat)
  {
    match s.producer
    case Idle => true
    case HasHead(_, h) => h == s.head
    case HasBoth(_, h, t) =>
      h == s.head && exists n: nat :: n <= |s.taken| && |s.accepted| <= n + Pow2(k) && Indexed(t, start, n)
    case HasRoom(_, h) => h == s.head && |s.accepted| < |s.taken| + Pow2(k)
    case Wrote(b, h) =>
      && h == s.head && |s.accepted| < |s.taken| + Pow2(k)
      && |s.slots| == Pow2(k) && s.slots[At(start, |s.accepted|, k)] == b
  }

  ghost predicate ConsumerOk(s: Machine)
  {
    match s.consumer
    case Waiting => true
    case HasTail(t, got) =>
      t == s.tail && |s.taken| + |got| <= |s.accepted| && got == s.accepted[|s.taken|..|s.taken| + |got|]
    case HasByte(t, got) =>
      t == s.tail && |s.taken| + |got| < |s.accepted| && got == s.accepted[|s.taken|..|s.taken| + |got|]
  }

  ghost predicate Safe(s: Machine, k: nat, start: nat)
  {
    Memory(s, k, start) && ProducerOk(s, k, start) && ConsumerOk(s)
  }

  // ------------------------------------------------------------ index arithmetic

  /** A difference of counts below 2^32 survives the wrap of the indices. */
  lemma BehindIs(start: nat, a: nat, t: nat)
    requires t <= a < t + WORD
    ensures Behind(Plus(start, a), Plus(start, t)) == a - t
  {}

  lemma WordMod(i: nat, d: nat, c: nat)
    requires WORD == d * c && d > 0 && c > 0
    ensures (i % WORD) % d == i % d
  {
    ModMod(i, WORD, d, c);
  }

  lemma SlotIs(start: nat, i: nat, k: nat)
    requires k < 32
    ensures Slot(Plus(start, i), k) == At(start, i, k)
  {
    WordIsPow2();
    hide Pow2, And;
    Pow2Add(k, 32 - k);
    MaskIsMod((start + i) % WORD, k);
    WordMod(start + i, Pow2(k), Pow2(32 - k));
  }

  lemma SlotsDiffer(i: nat, j: nat, d: nat)
    requires d > 0 && i < j < i + d
    ensures i % d != j % d
  {
    var q, q' := i / d, j / d;
    assert j - i == (q' - q) * d + (j % d - i % d);
    assert (q' - q) * d == -((q - q') * d);
    if q' > q { MulMono(1, q' - q, d); }
    if q' < q { MulMono(1, q - q', d); }
  }

  lemma WordIsPow2()
    ensures WORD == Pow2(32)
  {
    Pow2Add(16, 16);
    Pow2Add(8, 8);
    assert Pow2(8) == 256;
  }

  // ------------------------------------------------------------ every step keeps it

  lemma TestRoomSafe(s: Machine, k: nat, start: nat)
    requires k < 32 && Safe(s, k, start)
    ensures Safe(Next(s, k, TestRoom), k, start)
  {
    if s.producer.HasBoth? {
      var n: nat :| n <= |s.taken| && |s.accepted| <= n + Pow2(k) && Indexed(s.producer.tail, start, n);
      CapacityBelowWord(k);
      BehindIs(start, |s.accepted|, n);
    }
  }

  /** The slot the producer writes holds no byte the consumer has yet to take. */
  lemma WriteMissesPending(s: Machine, k: nat, start: nat, i: nat)
    requires k < 32 && Safe(s, k, start) && s.producer.HasRoom? && |s.taken| <= i < |s.accepted|
    ensures Slot(s.producer.head, k) == At(start, |s.accepted|, k) != At(start, i, k)
  {
    SlotIs(start, |s.accepted|, k);
    hide Pow2, Slot, Plus;
    SlotsDiffer(start + i, start + |s.accepted|, Pow2(k));
  }

  lemma HeldWrite(slots: seq<nat>, k: nat, start: nat, h: seq<nat>, lo: nat, b: nat)
    requires Held(slots, k, start, h, lo, |h|) && |h| < lo + Pow2(k)
    ensures Held(slots[At(start, |h|, k) := b], k, start, h, lo, |h|)
  {
    hide Pow2;
    forall i | lo <= i < |h| ensures slots[At(start, |h|, k) := b][At(start, i, k)] == h[i] {
      SlotsDiffer(start + i, start + |h|, Pow2(k));
    }
  }

  lemma WriteSlotSafe(s: Machine, k: nat, start: nat)
    requires k < 32 && Safe(s, k, start)
    ensures Safe(Next(s, k, WriteSlot), k, start)
  {
    hide Pow2, Slot, At, Plus;
    if s.producer.HasRoom? {
      SlotIs(start, |s.accepted|, k);
      HeldWrite(s.slots, k, start, s.accepted, |s.taken|, s.producer.byte);
    }
  }

  lemma PublishHeadSafe(s: Machine, k: nat, start: nat)
    requires k < 32 && Safe(s, k, start)
    ensures Safe(Next(s, k, PublishHead), k, start)
  {
    hide Pow2, Slot, At, Plus;
    if s.producer.Wrote? {
      NextIndex(start, |s.accepted|, 1);
      var t := Next(s, k, PublishHead);
      assert t.accepted[..|s.accepted|] == s.accepted;
      assert t.taken == t.accepted[..|t.taken|];
      HeldLonger(s.slots, k, start, s.accepted, |s.taken|, s.producer.byte);
    }
  }

  lemma HeldLonger(slots: seq<nat>, k: nat, start: nat, h: seq<nat>, lo: nat, b: nat)
    requires Held(slots, k, start, h, lo, |h|) && slots[At(start, |h|, k)] == b
    ensures Held(slots, k, start, h + [b], lo, |h| + 1)
  {}

  lemma NextIndex(start: nat, n: nat, d: nat)
    ensures Plus(Plus(start, n), d) == Plus(start, n + d)
  {}

  lemma TestByteSafe(s: Machine, k: nat, start: nat)
    requires k < 32 && Safe(s, k, start)
    ensures Safe(Next(s, k, TestByte), k, start)
  {
    CapacityBelowWord(k);
    BehindIs(start, |s.accepted|, |s.taken|);
  }

  lemma ReadSlotSafe(s: Machine, k: nat, start: nat)
    requires k < 32 && Safe(s, k, start)
    ensures Safe(Next(s, k, ReadSlot), k, start)
  {
    hide Pow2, Slot, At, Plus;
    if s.consumer.HasByte? {
      var n := |s.consumer.got|;
      var i := |s.taken| + n;
      NextIndex(start, |s.taken|, n);
      SlotIs(start, i, k);
      assert s.slots[At(start, i, k)] == s.accepted[i];
      assert s.accepted[|s.taken|..i + 1] == s.accepted[|s.taken|..i] + [s.accepted[i]];
    }
  }

  lemma AdvanceSafe(s: Machine, k: nat, start: nat, n: nat)
    requires k < 32 && Safe(s, k, start)
    ensures Safe(Next(s, k, Advance(n)), k, start)
  {
    hide Pow2, Slot, Plus;
    if s.consumer.HasTail? && n <= |s.consumer.got| {
      NextIndex(start, |s.taken|, n);
      var t := Next(s, k, Advance(n));
      assert s.consumer.got[..n] == s.accepted[|s.taken|..|s.taken| + n];
      assert t.taken == s.accepted[..|s.taken| + n];
    }
  }

  lemma CapacityBelowWord(k: nat)
    requires k < 32
    ensures 0 < Pow2(k) < WORD
  {
    WordIsPow2();
    Pow2Mono(k + 1, 32);
  }

  lemma StepSafe(s: Machine, k: nat, start: nat, step: Step)
    requires k < 32 && Safe(s, k, start)
    ensures Safe(Next(s, k, step), k, start)
  {
    hide Pow2, Slot, Plus;
    match step
    case TestRoom => TestRoomSafe(s, k, start);
    case WriteSlot => WriteSlotSafe(s, k, start);
    case PublishHead => PublishHeadSafe(s, k, start);
    case TestByte => TestByteSafe(s, k, start);
    case ReadSlot => ReadSlotSafe(s, k, start);
    case Advance(n) => AdvanceSafe(s, k, start, n);
    case _ =>
  }

  /** Whatever the interleaving and however often the indices wrap: what was taken is a
      prefix of what was accepted, and no more than the capacity is pending. */
  lemma {:induction false} EveryRunSafe(s: Machine, k: nat, start: nat, steps: seq<Step>)
    requires k < 32 && Safe(s, k, start)
    ensures Safe(Run(s, k, steps), k, start)
    decreases |steps|
  {
    if steps != [] {
      StepSafe(s, k, start, steps[0]);
      EveryRunSafe(Next(s, k, steps[0]), k, start, steps[1..]);
    }
  }

  lemma ResetSafe(k: nat, start: nat)
    requires start < WORD
    ensures Safe(Reset(k, start), k, start)
  {}

  lemma FifoFromReset(k: nat, start: nat, steps: seq<Step>)
    requires k < 32 && start < WORD
    ensures var s := Run(Reset(k, start), k, steps);
            && s.taken <= s.accepted && |s.accepted| - |s.taken| <= Pow2(k)
            && Behind(s.head, s.tail) == |s.accepted| - |s.taken|
  {
    ResetSafe(k, start);
    EveryRunSafe(Reset(k, start), k, start, steps);
    var s := Run(Reset(k, start), k, steps);
    CapacityBelowWord(k);
    BehindIs(start, |s.accepted|, |s.taken|);
  }

  /** A byte is dropped only if the ring was full when the producer read the tail, and the
      consumer gives up only if it is empty beyond what it holds. */
  lemma DropMeansFull(s: Machine, k: nat, start: nat)
    requires k < 32 && Safe(s, k, start) && s.producer.HasBoth?
    ensures Next(s, k, TestRoom).dropped > s.dropped <==>
            exists n: nat :: n <= |s.taken| && Indexed(s.producer.tail, start, n) && |s.accepted| == n + Pow2(k)
  {
    var n: nat :| n <= |s.taken| && |s.accepted| <= n + Pow2(k) && Indexed(s.producer.tail, start, n);
    CapacityBelowWord(k);
    BehindIs(start, |s.accepted|, n);
    if j: nat :| j <= |s.taken| && Indexed(s.producer.tail, start, j) && |s.accepted| == j + Pow2(k) {
      BehindIs(start, |s.accepted|, j);
    }
  }

  /** Every offer that ran to its end was accepted or counted as dropped. */
  function Ended(steps: seq<Step>, s: Machine, k: nat): nat
    decreases |steps|
  {
    if steps == [] then 0 else
      (if Ends(s, k, steps[0]) then 1 else 0) + Ended(steps[1..], Next(s, k, steps[0]), k)
  }

  /** The step returns from a push. */
  predicate Ends(s: Machine, k: nat, step: Step) { !s.producer.Idle? && Next(s, k, step).producer.Idle? }

  lemma {:induction false} NothingUncounted(s: Machine, k: nat, steps: seq<Step>)
    ensures var t := Run(s, k, steps);
            |t.accepted| + t.dropped == |s.accepted| + s.dropped + Ended(steps, s, k)
    decreases |steps|
  {
    hide Slot, Behind, Pow2;
    if steps != [] { NothingUncounted(Next(s, k, steps[0]), k, steps[1..]); }
  }

  // ------------------------------------------------------------ uninterrupted calls

  function PushSteps(b: nat): seq<Step> { [Offer(b), ReadTail, TestRoom, WriteSlot, PublishHead] }

  function PopSteps(): seq<Step> { [Begin, TestByte, ReadSlot, Advance(1)] }

  lemma {:induction false} RunConcat(s: Machine, k: nat, a: seq<Step>, b: seq<Step>)
    ensures Run(s, k, a + b) == Run(Run(s, k, a), k, b)
    decreases |a|
  {
    if a == [] {
      assert a + b == b;
    } else {
      assert (a + b)[1..] == a[1..] + b;
      RunConcat(Next(s, k, a[0]), k, a[1..], b);
    }
  }

  lemma RunFive(s: Machine, k: nat, a: Step, b: Step, c: Step, d: Step, e: Step)
    ensures Run(s, k, [a, b, c, d, e]) == Next(Next(Next(Next(Next(s, k, a), k, b), k, c), k, d), k, e)
  {
    hide Next;
    assert [a, b, c, d, e] == [a] + [b] + [c] + [d] + [e];
    RunConcat(s, k, [a] + [b] + [c] + [d], [e]);
    RunConcat(s, k, [a] + [b] + [c], [d]);
    RunConcat(s, k, [a] + [b], [c]);
    RunConcat(s, k, [a], [b]);
  }

  lemma RunFour(s: Machine, k: nat, a: Step, b: Step, c: Step, d: Step)
    ensures Run(s, k, [a, b, c, d]) == Next(Next(Next(Next(s, k, a), k, b), k, c), k, d)
  {
    hide Next;
    assert [a, b, c, d] == [a] + [b] + [c] + [d];
    RunConcat(s, k, [a] + [b] + [c], [d]);
    RunConcat(s, k, [a] + [b], [c]);
    RunConcat(s, k, [a], [b]);
  }

  /** Both sides between calls. */
  predicate Quiet(s: Machine) { s.producer.Idle? && s.consumer.Waiting? }

  /** An uninterrupted push appends the byte, or counts a drop exactly when the ring is full. */
  lemma PushRun(s: Machine, k: nat, start: nat, b: nat)
    requires k < 32 && Safe(s, k, start) && Quiet(s)
    ensures var t := Run(s, k, PushSteps(b));
            && Safe(t, k, start) && Quiet(t) && t.taken == s.taken && t.tail == s.tail
            && (|s.accepted| - |s.taken| == Pow2(k) <==> Behind(s.head, s.tail) >= Pow2(k))
            && (|s.accepted| - |s.taken| == Pow2(k) ==> t == s.(dropped := s.dropped + 1))
            && (|s.accepted| - |s.taken| < Pow2(k) ==>
                  && Slot(s.head, k) < |s.slots| && t.dropped == s.dropped && t.accepted == s.accepted + [b]
                  && t.slots == s.slots[Slot(s.head, k) := b] && t.head == Plus(s.head, 1))
  {
    EveryRunSafe(s, k, start, PushSteps(b));
    RunFive(s, k, Offer(b), ReadTail, TestRoom, WriteSlot, PublishHead);
    CapacityBelowWord(k);
    BehindIs(start, |s.accepted|, |s.taken|);
    SlotIs(start, |s.accepted|, k);
    hide Pow2, Slot, Behind, Run, At;
  }

  /** An uninterrupted pop yields the oldest byte, or nothing exactly when the ring is empty. */
  lemma PopRun(s: Machine, k: nat, start: nat)
    requires k < 32 && Safe(s, k, start) && Quiet(s)
    ensures var t := Run(s, k, PopSteps());
            && Safe(t, k, start) && Quiet(t) && t.accepted == s.accepted && t.slots == s.slots
            && t.head == s.head && t.dropped == s.dropped
            && (s.accepted == s.taken <==> s.head == s.tail) && (s.accepted == s.taken ==> t == s)
            && (s.accepted != s.taken ==>
                  && Slot(s.tail, k) < |s.slots| && |s.taken| < |s.accepted|
                  && s.slots[Slot(s.tail, k)] == s.accepted[|s.taken|]
                  && t.taken == s.taken + [s.accepted[|s.taken|]] && t.tail == Plus(s.tail, 1))
  {
    EveryRunSafe(s, k, start, PopSteps());
    RunFour(s, k, Begin, TestByte, ReadSlot, Advance(1));
    hide Pow2, Slot, Run, At, Plus;
    PopSees(s, k, start);
    hide Behind, Held, ProducerOk;
    var t := Run(s, k, PopSteps());
    if |s.taken| < |s.accepted| {
      assert t.taken == s.taken + [s.accepted[|s.taken|]];
    }
  }

  lemma BehindZero(h: nat, t: nat)
    requires h < WORD && t < WORD
    ensures Behind(h, t) == 0 <==> h == t
  {}

  lemma PopSees(s: Machine, k: nat, start: nat)
    requires k < 32 && Safe(s, k, start)
    ensures (s.accepted == s.taken <==> s.head == s.tail) && (s.head == s.tail <==> Behind(s.head, s.tail) == 0)
    ensures (s.accepted == s.taken <==> |s.accepted| == |s.taken|) && Plus(s.tail, 0) == s.tail
    ensures |s.taken| < |s.accepted| ==>
              Slot(s.tail, k) < |s.slots| && s.slots[Slot(s.tail, k)] == s.accepted[|s.taken|]
  {
    assert Plus(s.tail, 0) == s.tail < WORD && s.head < WORD;
    hide Pow2, Slot, Behind, At, Plus;
    CapacityBelowWord(k);
    BehindIs(start, |s.accepted|, |s.taken|);
    SlotIs(start, |s.taken|, k);
    BehindZero(s.head, s.tail);
    hide Pow2, Slot, Behind, At, Plus;
    if |s.taken| < |s.accepted| { assert s.slots[At(start, |s.taken|, k)] == s.accepted[|s.taken|]; }
  }
}

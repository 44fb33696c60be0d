/** The ring as the source runs it: `dialogue_ring_push` and `dialogue_ring_pop` of
    kernel/kernel/dialogue/dialogue_channel.c, the same pair in
    kernel/arch/i386/drivers/keyboard.c, and the peeking consumer of
    kernel/arch/i386/drivers/ps2_mouse.c.  Every call is a run of the protocol's steps. */
module ByteRing {
  import opened Bits
  import opened RingProtocol

  class Ring {
    const k: nat              // the capacity is 2^k bytes
    const bytes: array<nat>
    var head: nat
    var tail: nat
    var dropped: nat
    ghost const start: nat    // where both indices stood at the reset
    ghost var accepted: seq<nat>
    ghost var taken: seq<nat>

    ghost function View(): Machine
      reads this, bytes
    {
      Machine(bytes[..], head, tail, Idle, Waiting, accepted, dropped, taken)
    }

    ghost predicate Valid()
      reads this, bytes
    {
      k < 32 && Safe(View(), k, start)
    }

    /** The bytes waiting, oldest first. */
    ghost function Contents(): seq<nat>
      reads this, bytes
      requires Valid()
    {
      accepted[|taken|..]
    }

    constructor (k: nat, start: nat)
      requires k < 32 && start < WORD
      ensures Valid() && Contents() == [] && dropped == 0
      ensures fresh(bytes) && this.k == k && accepted == [] && taken == []
    {
      this.k, this.start := k, start;
      bytes := new nat[Pow2(k)];
      head, tail, dropped, accepted, taken := start, start, 0, [], [];
      new;
      assert Plus(start, 0) == start;
    }

    /** `dialogue_ring_push`, and the interrupt handlers of keyboard and mouse. */
    method Push(b: nat) returns (ok: bool)
      requires Valid()
      modifies this, bytes
      ensures Valid() && View() == Run(old(View()), k, PushSteps(b)) && taken == old(taken)
      ensures ok <==> |old(Contents())| < Pow2(k)
      ensures Contents() == if ok then old(Contents()) + [b] else old(Contents())
      ensures dropped == old(dropped) + if ok then 0 else 1
      ensures accepted == if ok then old(accepted) + [b] else old(accepted)
    {
      ghost var s := View();
      PushRun(s, k, start, b);
      hide Run, Safe, Slot, Plus, Behind, Pow2;
      var h := head;
      var t := tail;
      if Behind(h, t) >= Pow2(k) {
        dropped := dropped + 1;
        return false;
      }
      bytes[Slot(h, k)] := b;
      head := Plus(h, 1);
      accepted := accepted + [b];
      assert bytes[..] == s.slots[Slot(h, k) := b];
      return true;
    }

    /** `dialogue_ring_pop` and `keyboard_scancode_ring_pop`. */
    method Pop() returns (ok: bool, b: nat)
      requires Valid()
      modifies this`tail, this`taken
      ensures Valid() && View() == Run(old(View()), k, PopSteps())
      ensures ok <==> old(Contents()) != []
      ensures ok ==> b == old(Contents())[0] && Contents() == old(Contents())[1..] && taken == old(taken) + [b]
      ensures !ok ==> Contents() == old(Contents()) && taken == old(taken)
    {
      ghost var s := View();
      PopRun(s, k, start);
      TakenIsPrefix(s, k, start);
      hide Run, Safe, Slot, Plus;
      var t := tail;
      if head == t {
        return false, 0;
      }
      b := bytes[Slot(t, k)];
      tail := Plus(t, 1);
      taken := taken + [b];
      return true, b;
    }

    /** `personal_system_2_mouse_ring_peek` */
    method Peek(offset: nat) returns (ok: bool, b: nat)
      requires Valid()
      ensures ok <==> offset < |Contents()|
      ensures ok ==> b == Contents()[offset]
    {
      PeekSees(View(), k, start, offset);
      hide Safe, Slot, Plus, Behind;
      var t := tail;
      if Behind(head, t) <= offset {
        return false, 0;
      }
      return true, bytes[Slot(Plus(t, offset), k)];
    }

    /** The consumer's tail moves past bytes it has peeked at. */
    method Skip(n: nat)
      requires Valid() && n <= |Contents()|
      modifies this`tail, this`taken
      ensures Valid() && Contents() == old(Contents())[n..] && taken == old(taken) + old(Contents())[..n]
    {
      ghost var s := View();
      SkipSafe(s, k, start, n);
      tail := Plus(tail, n);
      taken := taken + accepted[|taken|..|taken| + n];
    }

    /** The occupancy the drivers report. */
    method Pending() returns (n: nat)
      requires Valid()
      ensures n == |Contents()| <= Pow2(k)
    {
      CapacityBelowWord(k);
      BehindIs(start, |accepted|, |taken|);
      n := Behind(head, tail);
    }
  }

  lemma TakenIsPrefix(s: Machine, k: nat, start: nat)
    requires Safe(s, k, start)
    ensures |s.taken| <= |s.accepted| && (s.accepted == s.taken <==> s.accepted[|s.taken|..] == [])
  {
    assert s.taken == s.accepted[..|s.taken|];
  }

  lemma PeekSees(s: Machine, k: nat, start: nat, i: nat)
    requires k < 32 && Safe(s, k, start)
    ensures Behind(s.head, s.tail) == |s.accepted| - |s.taken|
    ensures i < |s.accepted| - |s.taken| ==>
              Slot(Plus(s.tail, i), k) < |s.slots| && s.slots[Slot(Plus(s.tail, i), k)] == s.accepted[|s.taken|..][i]
  {
    CapacityBelowWord(k);
    BehindIs(start, |s.accepted|, |s.taken|);
    NextIndex(start, |s.taken|, i);
    SlotIs(start, |s.taken| + i, k);
    hide Pow2, Slot, Behind, At, Plus;
    if i < |s.accepted| - |s.taken| { assert s.slots[At(start, |s.taken| + i, k)] == s.accepted[|s.taken| + i]; }
  }

  lemma SkipSafe(s: Machine, k: nat, start: nat, n: nat)
    requires k < 32 && Safe(s, k, start) && Quiet(s) && |s.taken| + n <= |s.accepted|
    ensures Safe(s.(tail := Plus(s.tail, n), taken := s.taken + s.accepted[|s.taken|..|s.taken| + n]), k, start)
  {
    var t := s.(consumer := HasTail(s.tail, s.accepted[|s.taken|..|s.taken| + n]));
    assert t.consumer.got[..n] == t.consumer.got;
    AdvanceSafe(t, k, start, n);
  }
}

/** The processor table of kernel/arch/i386/cpu/cpu_topology.c: which APIC identifier has
    which slot, which slots are online, and how many are. */
module Topology {
  import opened Bits
  import opened Counting

  const SLOTS: nat := 32
  const NONE: nat := 0xFFFF_FFFF

  class Table {
    const ids: array<nat>
    const online: array<bool>
    var discovered: nat
    var onlineCount: nat

    /** The first `discovered` slots hold different identifiers, and the count of online
        processors is the number of online flags. */
    ghost predicate Valid()
      reads this, ids, online
    {
      && ids.Length == online.Length == SLOTS && discovered <= SLOTS && onlineCount == CountTrue(online[..])
      && (forall i, j :: 0 <= i < j < discovered ==> ids[i] != ids[j])
    }

    /** `cpu_topology_reset_discovery` */
    constructor ()
      ensures Valid() && discovered == 0 && onlineCount == 0 && fresh(ids) && fresh(online)
    {
      ids := new nat[SLOTS](i => NONE);
      online := new bool[SLOTS](i => false);
      discovered, onlineCount := 0, 0;
      new;
      CountNone(online[..]);
    }

    /** `cpu_topology_register_apic_id_internal`: a known identifier keeps its slot, a new one
        gets the next; with the table full, a new identifier is returned as its own slot. */
    method Register(id: nat) returns (slot: nat)
      requires Valid()
      modifies this`discovered, ids
      ensures Valid() && ids[..old(discovered)] == old(ids[..discovered])
      ensures id in old(ids[..discovered]) ==> slot < discovered == old(discovered) && ids[slot] == id
      ensures id !in old(ids[..discovered]) && old(discovered) < SLOTS ==>
                slot == old(discovered) && discovered == old(discovered) + 1 && ids[slot] == id
      ensures id !in old(ids[..discovered]) && old(discovered) == SLOTS ==> slot == id && discovered == old(discovered)
    {
      slot := 0;
      while slot < discovered
        invariant slot <= discovered && id !in ids[..slot]
      {
        if ids[slot] == id {
          return;
        }
        slot := slot + 1;
      }
      if discovered < SLOTS {
        slot := discovered;
        ids[slot] := id;
        discovered := discovered + 1;
        return;
      }
      return id;
    }

    /** The identifier has a slot of its own, or can still get one. */
    ghost predicate HasPlace(id: nat)
      requires discovered <= ids.Length
      reads this, ids
    {
      And(id, 0xFF) in ids[..discovered] || discovered < SLOTS
    }

    /** `cpu_topology_mark_apic_id_online`.  The flag that is set belongs to the identifier
        exactly when it has a place; with the table full, an identifier below 32 sets the flag
        of whichever processor holds the slot of that number. */
    method MarkOnline(id: nat) returns (ghost slot: nat)
      requires Valid()
      modifies this`discovered, this`onlineCount, ids, online
      ensures Valid() && (slot < SLOTS ==> online[slot]) && ids[..old(discovered)] == old(ids[..discovered])
      ensures onlineCount == old(onlineCount) + if slot < SLOTS && !old(online[..])[slot] then 1 else 0
      ensures forall c :: 0 <= c < SLOTS && c != slot ==> online[c] == old(online[c])
      ensures old(HasPlace(id)) ==> slot < discovered && ids[slot] == And(id, 0xFF)
      ensures !old(HasPlace(id)) ==> slot == And(id, 0xFF) && (slot < SLOTS ==> ids[slot] != And(id, 0xFF))
    {
      var place := Register(And(id, 0xFF));
      slot := place;
      if place >= SLOTS {
        return;
      }
      if !online[place] {
        ghost var was := online[..];
        CountSet(was, place, true);
        online[place] := true;
        onlineCount := onlineCount + 1;
        assert online[..] == was[place := true];
      }
    }

    /** `cpu_topology_unmark_apic_id_online`, with the same exception. */
    method UnmarkOnline(id: nat) returns (ghost slot: nat)
      requires Valid()
      modifies this`discovered, this`onlineCount, ids, online
      ensures Valid() && (slot < SLOTS ==> !online[slot]) && ids[..old(discovered)] == old(ids[..discovered])
      ensures onlineCount == old(onlineCount) - if slot < SLOTS && old(online[..])[slot] then 1 else 0
      ensures forall c :: 0 <= c < SLOTS && c != slot ==> online[c] == old(online[c])
      ensures old(HasPlace(id)) ==> slot < discovered && ids[slot] == And(id, 0xFF)
      ensures !old(HasPlace(id)) ==> slot == And(id, 0xFF) && (slot < SLOTS ==> ids[slot] != And(id, 0xFF))
    {
      var place := Register(And(id, 0xFF));
      slot := place;
      if place >= SLOTS {
        return;
      }
      if online[place] {
        ghost var was := online[..];
        CountSet(was, place, false);
        online[place] := false;
        if onlineCount > 0 {
          onlineCount := onlineCount - 1;
        }
        assert online[..] == was[place := false];
      }
    }
  }

  /** Thirty-two processors with identifiers 32 to 63 fill the table.  Marking identifier 5
      online then marks the processor with identifier 37. */
  method MarksAnother() returns (t: Table)
    ensures t.Valid() && 5 !in t.ids[..] && t.ids[5] == 37 && t.online[5] && t.onlineCount == 1
  {
    t := new Table();
    for n := 0 to SLOTS
      invariant t.Valid() && t.discovered == n && fresh(t) && fresh(t.ids) && fresh(t.online)
      invariant forall i :: 0 <= i < n ==> t.ids[i] == 32 + i
      invariant t.onlineCount == 0
    {
      assert 32 + n !in t.ids[..n];
      var slot := t.Register(32 + n);
      assert forall i :: 0 <= i < n ==> t.ids[i] == t.ids[..n][i];
    }
    Low(5);
    CountZero(t.online[..]);
    ghost var ids := t.ids[..];
    var slot := t.MarkOnline(5);
    assert t.ids[..] == ids;
  }

  lemma Low(id: nat)
    requires id < 0x100
    ensures And(id, 0xFF) == id
  {
    assert Pow2(8) == 0x100;
    MaskIsMod(id, 8);
  }
}

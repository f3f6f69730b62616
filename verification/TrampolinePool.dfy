/** The fixed-slot allocator for trampolines: one executable mapping in the target, cut
    into 32 slots of 512 bytes, mapped on first use and unmapped when the last slot is
    given back. */
module TrampolinePool {
  import opened ByteString

  const SLOTS: nat := 32
  const SLOT_SIZE: nat := 512

  predicate SlotValid(slot: int) {
    0 <= slot < SLOTS
  }

  // 0 when there is no such slot.
  function SlotAddr(base: nat, slot: int): nat {
    if base == 0 || !SlotValid(slot) then 0 else base + slot * SLOT_SIZE
  }

  lemma SlotAddrsDiffer(base: nat, s: int, t: int)
    requires base != 0 && SlotValid(s) && SlotValid(t) && s != t
    ensures SlotAddr(base, s) + SLOT_SIZE <= SlotAddr(base, t) || SlotAddr(base, t) + SLOT_SIZE <= SlotAddr(base, s)
  {
  }

  ghost predicate AllFree(used: seq<bool>) {
    forall s | 0 <= s < |used| :: !used[s]
  }

  // What was written to each slot lies at its place in the mapping, whole.
  ghost predicate Laid(memory: seq<Byte>, code: seq<seq<Byte>>) {
    && |memory| == SLOTS * SLOT_SIZE && |code| == SLOTS
    && forall s | 0 <= s < SLOTS :: LaidAt(memory, s, code[s])
  }

  ghost predicate LaidAt(memory: seq<Byte>, s: nat, bytes: seq<Byte>) {
    |bytes| <= SLOT_SIZE && s * SLOT_SIZE + |bytes| <= |memory| && memory[s * SLOT_SIZE..s * SLOT_SIZE + |bytes|] == bytes
  }

  /** Writing one slot leaves all others as they are. */
  lemma WritesStayInTheirSlot(memory: seq<Byte>, code: seq<seq<Byte>>, slot: nat, bytes: seq<Byte>)
    requires Laid(memory, code) && slot < SLOTS && |bytes| <= SLOT_SIZE
    ensures slot * SLOT_SIZE + |bytes| <= |memory|
    ensures Laid(Overwrite(memory, slot * SLOT_SIZE, bytes), code[slot := bytes])
  {
    var after := Overwrite(memory, slot * SLOT_SIZE, bytes);
    forall s | 0 <= s < SLOTS && s != slot ensures LaidAt(after, s, code[s]) {
      assert LaidAt(memory, s, code[s]);
    }
    assert LaidAt(after, slot, bytes);
  }

  // Slot addresses and bookkeeping, the bytes of the mapping, and what was written to each
  // slot. A base of 0 means that the pool is not mapped.
  class Pool {
    var base: nat
    var used: seq<bool>
    var memory: seq<Byte>
    ghost var code: seq<seq<Byte>>

    ghost predicate Valid()
      reads this
    {
      |used| == SLOTS && Laid(memory, code) && (base == 0 ==> AllFree(used))
    }

    constructor ()
      ensures Valid() && base == 0
    {
      base := 0;
      used := seq(SLOTS, _ => false);
      memory, code := seq(SLOTS * SLOT_SIZE, _ => 0), seq(SLOTS, _ => []);
    }

    method IsAllFree() returns (free: bool)
      requires Valid()
      ensures free <==> AllFree(used)
    {
      var s := 0;
      while s < SLOTS
        invariant s <= SLOTS && forall t | 0 <= t < s :: !used[t]
      {
        if used[s] {
          return false;
        }
        s := s + 1;
      }
      return true;
    }

    // Maps the pool if needed; mmapAt is the address mmap returns, 0 if it fails.
    method Ensure(mmapAt: nat) returns (ok: bool)
      requires Valid()
      modifies this
      ensures Valid() && used == old(used)
      ensures ok == (base != 0) && ok == (old(base) != 0 || mmapAt != 0)
      ensures old(base) != 0 ==> base == old(base) && code == old(code)
      ensures old(base) == 0 ==> base == mmapAt
      ensures !ok ==> code == old(code)
    {
      if base != 0 {
        return true;
      }
      if mmapAt == 0 {
        return false;
      }
      base := mmapAt;
      used := seq(SLOTS, _ => false);
      memory, code := seq(SLOTS * SLOT_SIZE, _ => 0), seq(SLOTS, _ => []);
      return true;
    }

    /** A probe that has a slot keeps it; any other probe gets the first free one. */
    method Alloc(slot: int, addr: nat, mmapAt: nat) returns (ok: bool, slot': int, addr': nat)
      requires Valid()
      modifies this
      ensures Valid()
      ensures old(base) != 0 ==> base == old(base) && code == old(code)
      ensures old(base) == 0 && ok ==> base == mmapAt
      ensures ok ==> 0 <= slot' < 32 && base != 0 && addr' == base + slot' * 512 && used == old(used)[slot' := true]
      ensures ok && old(used)[slot'] ==> slot' == slot && addr' == addr
      ensures ok && !(SlotValid(slot) && old(base) != 0) ==> forall s | 0 <= s < slot' :: old(used)[s]
      ensures !ok ==> slot' == slot && addr' == addr && used == old(used)
      ensures SlotValid(slot) && old(base) != 0 ==> (ok <==> !old(used)[slot] || addr == SlotAddr(base, slot)) && (ok ==> slot' == slot)
      ensures !(SlotValid(slot) && old(base) != 0) ==>
                (ok <==> (old(base) != 0 || mmapAt != 0) && exists s :: 0 <= s < SLOTS && !old(used)[s])
    {
      if SlotValid(slot) && base != 0 {
        if used[slot] && addr != SlotAddr(base, slot) {
          return false, slot, addr;
        }
        used := used[slot := true];
        return true, slot, SlotAddr(base, slot);
      }
      ok := Ensure(mmapAt);
      if !ok {
        return false, slot, addr;
      }
      var s := 0;
      while s < SLOTS
        invariant s <= SLOTS && Valid() && used == old(used) && base != 0
        invariant old(base) != 0 ==> base == old(base) && code == old(code)
        invariant old(base) == 0 ==> base == mmapAt
        invariant forall t | 0 <= t < s :: used[t]
      {
        if !used[s] {
          used := used[s := true];
          return true, s, SlotAddr(base, s);
        }
        s := s + 1;
      }
      return false, slot, addr;
    }

    /** Gives a probe's slot back, unless it is in use for another address. */
    method Release(slot: int, addr: nat, munmapOk: bool) returns (slot': int, addr': nat)
      requires Valid()
      modifies this
      ensures Valid() && code == old(code)
      ensures if !SlotValid(slot) || (old(base) != 0 && old(used)[slot] && addr != SlotAddr(old(base), slot))
              then slot' == slot && addr' == addr && used == old(used) && base == old(base)
              else slot' == -1 && addr' == 0 && used == old(used)[slot := false]
                   && base == if AllFree(used) && munmapOk then 0 else old(base)
    {
      if !SlotValid(slot) {
        return slot, addr;
      }
      if base != 0 && used[slot] && addr != SlotAddr(base, slot) {
        return slot, addr;
      }
      used := used[slot := false];
      slot', addr' := -1, 0;
      if base != 0 {
        var free := IsAllFree();
        if free && munmapOk {
          base := 0;
          used := seq(SLOTS, _ => false);
          assert used == old(used)[slot := false];
        }
      }
    }

    // Writing a trampoline into its slot.
    method WriteSlot(slot: nat, bytes: seq<Byte>)
      requires Valid() && slot < SLOTS && |bytes| <= SLOT_SIZE
      modifies this`memory, this`code
      ensures Valid() && code == old(code)[slot := bytes]
      ensures memory == Overwrite(old(memory), slot * 512, bytes)
    {
      WritesStayInTheirSlot(memory, code, slot, bytes);
      memory, code := Overwrite(memory, slot * SLOT_SIZE, bytes), code[slot := bytes];
    }
  }
}

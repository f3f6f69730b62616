/** The tracer's call-action operations on the shared table, one remote write at a time. */
module CallActionTable {
  import opened Words
  import opened CallActionSlots
  import opened CallActionTrace

  // The n remote writes from this one on do not fail.
  predicate Calm(faults: set<nat>, from: nat, n: nat) {
    forall k | from <= k < from + n :: k !in faults
  }

  lemma CalmOneMore(faults: set<nat>, from: nat, n: nat)
    ensures Calm(faults, from, n + 1) <==> Calm(faults, from, n) && from + n !in faults
    ensures Calm(faults, from, n) && n > 0 ==> Calm(faults, from, 1)
  {
  }

  lemma CalmNone(faults: set<nat>, from: nat)
    ensures Calm(faults, from, 0)
  {
  }

  lemma InStepAfter(probes: seq<Probe>, remote: seq<CallAction>, count: nat, probes': seq<Probe>, remote': seq<CallAction>, count': nat)
    ensures Published(probes, remote, count) ==> Mirrored(probes, remote)
    ensures Mirrored(probes', remote') && count' == Count(probes') ==> Published(probes', remote', count')
  {
  }

  // The epochs handed out so far: 1, 2, 3 and so on, until 2^64 - 1 of them are used up.
  ghost predicate Numbered(issued: seq<Word>, epoch: Word, wrapped: bool) {
    && (wrapped ==> |issued| >= TWO64)
    && (!wrapped ==> epoch == |issued| && forall k | 0 <= k < |issued| :: issued[k] == k + 1)
  }

  lemma NumberedOnce(issued: seq<Word>, epoch: Word, wrapped: bool)
    requires Numbered(issued, epoch, wrapped)
    ensures Numbered(issued + [NextEpoch(epoch)], NextEpoch(epoch), wrapped || epoch + 1 == TWO64)
    ensures |issued| + 1 < TWO64 ==> forall k | 0 <= k < |issued| :: issued[k] < NextEpoch(epoch)
  {
  }

  ghost predicate Known(probes: seq<Probe>, id: nat) {
    id != 0 && Find(probes, id) < |probes|
  }

  // A known probe, a callee that was found, and at most six arguments, each a constant or
  // one of the six entry arguments.
  ghost predicate Accepts(probes: seq<Probe>, id: nat, resolved: bool, args: seq<Arg>) {
    && Known(probes, id) && resolved
    && |args| <= 6 && forall k | 0 <= k < |args| :: args[k].kind == 1 || (args[k].kind == 2 && args[k].value < 6)
  }

  lemma AcceptsValid(probes: seq<Probe>, id: nat, resolved: bool, args: seq<Arg>)
    ensures Accepts(probes, id, resolved, args) <==> Known(probes, id) && resolved && ArgsValid(args)
  {
  }

  // What three writes leave in the shared table: nothing new if the first fails, the slot
  // disabled if a later one does, and the action if none does.
  ghost predicate SlotWritten(table: seq<CallAction>, table': seq<CallAction>, slot: int, action: CallAction, first: bool, all: bool) {
    && |table| == |table'| == SLOTS && SlotValid(slot)
    && table' == table[slot := table'[slot]]
    && (if all then table'[slot] == action else if first then table'[slot].enabled == 0 else table' == table)
  }

  // The tracer's probes and the shared table. Remote write number n fails, changing
  // nothing, if n is in `faults`.
  class Table {
    var probes: seq<Probe>
    var remote: seq<CallAction>
    var count: nat
    var epoch: Word
    var nextId: nat
    const faults: set<nat>
    var writes: nat

    // Ids whose current action is published, ids shown in a slot that is not theirs,
    // whether epochs have wrapped around, and all epochs handed out so far.
    ghost var synced: set<nat>
    ghost var strays: set<nat>
    ghost var wrapped: bool
    ghost var issued: seq<Word>

    ghost predicate Valid()
      reads this
    {
      && Sound(probes) && |remote| == SLOTS && IdsBelow(probes, nextId)
      && Traced(probes, remote, synced, strays, nextId)
      && (!wrapped ==> Exact(probes, remote, synced, epoch))
      && Numbered(issued, epoch, wrapped)
    }

    // The shared table is exactly the tracer's view.
    ghost predicate InStep()
      reads this
    {
      Published(probes, remote, count)
    }

    constructor (faults: set<nat>)
      ensures Valid() && InStep() && Actions(probes) == map[] && !wrapped && strays == {}
      ensures this.faults == faults && writes == 0 && nextId == 1 && epoch == 0 && issued == []
      ensures |probes| == PROBES && forall i | 0 <= i < PROBES :: probes[i] == NoProbe
      ensures |remote| == SLOTS && count == 0 && forall j | 0 <= j < SLOTS :: remote[j] == NoAction
    {
      probes := seq(PROBES, _ => NoProbe);
      remote := seq(SLOTS, _ => NoAction);
      count, epoch, nextId, writes := 0, 0, 1, 0;
      synced, strays, wrapped, issued := {}, {}, false, [];
      this.faults := faults;
      new;
      CountZero(probes);
    }

    // One remote write.
    method Write() returns (ok: bool)
      modifies this`writes
      ensures writes == old(writes) + 1 && ok == (old(writes) !in faults)
    {
      ok := writes !in faults;
      writes := writes + 1;
    }

    method UsesSlot(owner: nat, slot: int) returns (used: bool)
      requires |probes| == PROBES
      ensures used <==> Taken(probes, owner, slot)
    {
      var i := 0;
      while i < PROBES
        invariant i <= PROBES
        invariant forall k | 0 <= k < i && k != owner && Active(probes[k]) :: probes[k].slot != slot
      {
        if i != owner && Active(probes[i]) && probes[i].slot == slot {
          return true;
        }
        i := i + 1;
      }
      return false;
    }

    /** Gives the probe a slot no other action uses: the one it has if that is still free,
        else the first free one from its home slot on. It never fails. */
    method AssignSlot(i: nat) returns (ok: bool)
      requires Valid() && i < PROBES && probes[i].id != 0
      modifies this`probes
      ensures ok
      ensures |probes| == PROBES && SlotValid(probes[i].slot) && !Taken(old(probes), i, probes[i].slot)
      ensures probes == old(probes)[i := old(probes[i]).(slot := probes[i].slot)]
      ensures var was := old(probes[i].slot);
              if SlotValid(was) && !Taken(old(probes), i, was) then probes[i].slot == was
              else FirstFree(old(probes), i, probes[i].slot)
    {
      ghost var before := probes;
      if SlotValid(probes[i].slot) {
        var used := UsesSlot(i, probes[i].slot);
        if !used {
          return true;
        }
      }
      SomeOffsetFree(probes, i, probes[i].id);
      var offset: nat := 0;
      ok := false;
      while offset < SLOTS && !ok
        invariant offset <= SLOTS && |probes| == PROBES
        invariant probes == before[i := before[i].(slot := probes[i].slot)]
        invariant !ok ==> forall o: nat | o < offset :: Taken(before, i, HomeSlot(before[i].id, o))
        invariant !ok ==> probes == before
        invariant ok ==> FirstFree(before, i, probes[i].slot)
      {
        var slot := HomeSlot(probes[i].id, offset);
        var used := UsesSlot(i, slot);
        if !used {
          probes := probes[i := probes[i].(slot := slot)];
          ok := true;
        }
        offset := offset + 1;
      }
    }

    // Disabled, then data, then enabled, into the slot of probe i: two writes, and a third
    // for an action.
    method WriteCallAction(i: nat) returns (ok: bool)
      requires |remote| == SLOTS && i < |probes| && probes[i].id != 0
      modifies this`remote, this`writes
      ensures |remote| == SLOTS
      ensures var n, p := (if probes[i].action.enabled != 0 then 3 else 2), probes[i];
              && (ok <==> SlotValid(p.slot) && Calm(faults, old(writes), n))
              && (ok ==> writes == old(writes) + n && remote == old(remote)[p.slot := p.action])
              && (SlotValid(p.slot) ==> remote == old(remote)[p.slot := remote[p.slot]])
              && (SlotValid(p.slot) && !ok ==>
                    if Calm(faults, old(writes), 1) then remote[p.slot].enabled == 0 else remote[p.slot] == old(remote)[p.slot])
              && (SlotValid(p.slot) && !Calm(faults, old(writes), 1) ==> writes == old(writes) + 1)
              && (!SlotValid(p.slot) ==> remote == old(remote))
    {
      if !SlotValid(probes[i].slot) {
        return false;
      }
      var slot := probes[i].slot;
      ok := Write();
      if !ok {
        assert !Calm(faults, old(writes), 1);
        return;
      }
      remote := remote[slot := remote[slot].(enabled := 0)];
      ok := Write();
      if !ok {
        return;
      }
      remote := remote[slot := probes[i].action.(enabled := 0)];
      if probes[i].action.enabled == 0 {
        return;
      }
      ok := Write();
      if ok {
        remote := remote[slot := remote[slot].(enabled := probes[i].action.enabled)];
      }
    }

    method WriteCount() returns (ok: bool)
      requires |probes| == PROBES
      modifies this`count, this`writes
      ensures ok == (old(writes) !in faults) && writes == old(writes) + 1
      ensures count == if ok then Count(probes) else old(count)
    {
      var n: nat := 0;
      var i := 0;
      while i < PROBES
        invariant i <= PROBES && n == Count(probes[..i])
      {
        assert probes[..i + 1][..i] == probes[..i];
        if Active(probes[i]) {
          n := n + 1;
        }
        i := i + 1;
      }
      assert probes[..PROBES] == probes;
      ok := Write();
      if ok {
        count := n;
      }
    }

    /** Gives a probe a call action. The tracer's map always changes by exactly this action,
        under the next epoch, which is above all earlier ones unless 2^64 have been used.
        Its three writes decide whether it is published, the fourth is the count. If all
        succeed the shared table says the same as the tracer again. */
    method Update(id: nat, resolved: bool, callee: Word, args: seq<Arg>) returns (ok: bool)
      requires Valid()
      modifies this
      ensures Valid() && nextId == old(nextId)
      ensures Accepts(old(probes), id, resolved, args) ==>
                var i := Find(old(probes), id);
                var action := CallAction(epoch, id, callee, args);
                var slot := probes[i].slot;
                && Actions(probes) == old(Actions(probes))[id := action]
                && probes == old(probes)[i := Probe(id, slot, action)] && GivenSlot(old(probes), i, slot)
                && (ok <==> Calm(faults, old(writes), 4)) && (ok ==> writes == old(writes) + 4)
                && (count == if ok then Count(probes) else old(count))
                && epoch == (if old(epoch) < 0xFFFF_FFFF_FFFF_FFFF then old(epoch) + 1 else 1)
                && (wrapped <==> old(wrapped) || old(epoch) == 0xFFFF_FFFF_FFFF_FFFF) && issued == old(issued) + [epoch]
                && (|issued| < TWO64 ==> forall k | 0 <= k < |old(issued)| :: old(issued)[k] < epoch)
                && SlotWritten(old(remote), remote, slot, action, Calm(faults, old(writes), 1), Calm(faults, old(writes), 3))
                && synced == SyncedAfter(old(synced), id, Calm(faults, old(writes), 3))
                && strays == StraysAfter(old(strays), old(probes)[i], slot, old(remote))
      ensures !Accepts(old(probes), id, resolved, args) ==>
                && !ok && probes == old(probes) && remote == old(remote) && count == old(count) && epoch == old(epoch)
                && synced == old(synced) && strays == old(strays) && wrapped == old(wrapped) && issued == old(issued)
      ensures ok && old(InStep()) ==> InStep()
    {
      hide Find;
      hide Sound;
      hide Numbered;
      hide SlotWritten;
      hide Actions;
      hide IdsBelow;
      hide Count;
      hide Traced;
      hide Exact;
      hide GivenSlot;
      hide SyncedAfter;
      hide StraysAfter;
      hide ArgsValid;
      hide Calm;
      hide Published;
      hide Accepts;
      AcceptsValid(probes, id, resolved, args);
      if id == 0 || !ArgsValid(args) {
        return false;
      }
      SoundLength(probes);
      var i := Find(probes, id);
      if i == |probes| || !resolved {
        return false;
      }
      ArgsFew(args);
      ok := Give(i, callee, args);
    }

    // Gives entry i a slot and the action.
    method Place(i: nat, callee: Word, args: seq<Arg>)
      requires Valid() && i < |probes| && probes[i].id != 0
      modifies this`probes, this`epoch
      ensures epoch == NextEpoch(old(epoch)) && |probes| == |old(probes)| == PROBES
      ensures probes == old(probes)[i := Probe(old(probes[i].id), probes[i].slot, CallAction(epoch, old(probes[i].id), callee, args))]
      ensures SlotValid(probes[i].slot) && !Taken(old(probes), i, probes[i].slot) && GivenSlot(old(probes), i, probes[i].slot)
      ensures SlotValid(old(probes[i].slot)) && !Taken(old(probes), i, old(probes[i].slot)) ==> probes[i].slot == old(probes[i].slot)
    {
      hide Sound;
      hide Traced;
      hide Exact;
      hide Taken;
      SoundLength(probes);
      ghost var before := probes;
      var ok := AssignSlot(i);
      epoch := NextEpoch(epoch);
      probes := probes[i := probes[i].(action := CallAction(epoch, probes[i].id, callee, args))];
      assert probes == before[i := probes[i]];
    }

    // Gives entry i a slot and the action, then publishes it.
    method Give(i: nat, callee: Word, args: seq<Arg>) returns (ok: bool)
      requires Valid() && i < |probes| && probes[i].id != 0 && |args| <= ARG_CAP
      modifies this
      ensures Valid() && nextId == old(nextId) && |probes| == |old(probes)| && epoch == NextEpoch(old(epoch))
      ensures var id, slot := old(probes[i].id), probes[i].slot;
              var action := CallAction(epoch, id, callee, args);
              && Actions(probes) == old(Actions(probes))[id := action]
              && probes == old(probes)[i := Probe(id, slot, action)] && GivenSlot(old(probes), i, slot)
              && (ok <==> Calm(faults, old(writes), 4)) && (ok ==> writes == old(writes) + 4)
              && (count == if ok then Count(probes) else old(count))
              && (wrapped <==> old(wrapped) || old(epoch) + 1 == TWO64) && issued == old(issued) + [epoch]
              && (|issued| < TWO64 ==> forall k | 0 <= k < |old(issued)| :: old(issued)[k] < epoch)
              && SlotWritten(old(remote), remote, slot, action, Calm(faults, old(writes), 1), Calm(faults, old(writes), 3))
              && synced == SyncedAfter(old(synced), id, Calm(faults, old(writes), 3))
              && strays == StraysAfter(old(strays), old(probes)[i], slot, old(remote))
      ensures ok && old(InStep()) ==> InStep()
    {
      hide Sound;
      hide Numbered;
      hide Mirrored;
      hide Actions;
      hide IdsBelow;
      hide Count;
      hide Taken;
      hide FirstFree;
      hide Traced;
      hide Exact;
      hide SyncedAfter;
      hide StraysAfter;
      hide Calm;
      hide GivenSlot;
      hide Published;
      SoundLength(probes);
      ghost var before, table := probes, remote;
      ghost var published := Calm(faults, writes, 3);
      CalmOneMore(faults, writes, 3);
      CalmOneMore(faults, writes, 2);
      Place(i, callee, args);
      ghost var p := probes[i];
      Updated(before, remote, i, p, nextId);
      IdBelow(before, i, nextId);
      ok := WriteCallAction(i);
      UpdateTraced(before, table, i, p, remote, synced, strays, nextId, published);
      NumberedOnce(issued, old(epoch), wrapped);
      wrapped := wrapped || old(epoch) + 1 == TWO64;
      issued := issued + [epoch];
      if !wrapped {
        UpdateExact(before, table, i, p, remote, synced, old(epoch), published);
      }
      synced := SyncedAfter(synced, p.id, published);
      strays := StraysAfter(strays, before[i], p.slot, table);
      if ok {
        ok := WriteCount();
      }
      InStepAfter(before, table, old(count), probes, remote, count);
    }

    /** Takes a probe's call action away. Its first write empties the slot the probe
        remembers; any other probe with an action there loses it, and no others do. */
    method Clear(id: nat) returns (ok: bool)
      requires Valid()
      modifies this
      ensures Valid() && nextId == old(nextId) && epoch == old(epoch) && strays == old(strays) && wrapped == old(wrapped) && issued == old(issued)
      ensures Known(old(probes), id) ==>
                var i := Find(old(probes), id);
                var slot := old(probes)[i].slot;
                var emptied := SlotValid(slot) && Calm(faults, old(writes), 1);
                && Actions(probes) == old(Actions(probes)) - {id}
                && (ok <==> Calm(faults, old(writes), if slot >= 0 then 3 else 1))
                && (ok ==> writes == old(writes) + if slot >= 0 then 3 else 1)
                && (count == if ok then Count(probes) else old(count))
                && probes == old(probes)[i := Probe(id, if slot >= 0 && !Calm(faults, old(writes), 2) then slot else -1, NoAction)]
                && synced == SyncedCleared(old(synced), old(probes), i, emptied)
                && (!emptied ==> remote == old(remote)) && (slot >= 0 && !Calm(faults, old(writes), 1) ==> writes == old(writes) + 1)
                && (emptied ==> remote == old(remote)[slot := remote[slot]] && remote[slot].enabled == 0)
                && (ok ==> Disturbed(old(probes), old(remote), i, remote))
      ensures !Known(old(probes), id) ==>
                !ok && probes == old(probes) && remote == old(remote) && count == old(count) && synced == old(synced)
      ensures ok && old(InStep()) ==> InStep()
    {
      hide Find;
      hide Sound;
      hide Mirrored;
      hide Actions;
      hide IdsBelow;
      hide Disturbed;
      hide Count;
      hide Traced;
      hide Exact;
      hide Holders;
      hide Calm;
      if id == 0 {
        return false;
      }
      SoundLength(probes);
      var i := Find(probes, id);
      if i == |probes| {
        return false;
      }
      ghost var before, table := probes, remote;
      var slot := probes[i].slot;
      ghost var emptied := slot >= 0 && Calm(faults, writes, 1);
      CalmOneMore(faults, writes, 0);
      CalmOneMore(faults, writes, 1);
      CalmOneMore(faults, writes, 2);
      CalmNone(faults, writes);
      Cleared(before, i, slot, nextId);
      Cleared(before, i, -1, nextId);
      ClearedMirror(before, table, i);
      ClearedOthers(before, table, i);
      probes := probes[i := probes[i].(action := NoAction)];
      assert probes == before[i := Probe(id, slot, NoAction)];
      if slot >= 0 {
        ok := WriteCallAction(i);
        ClearTraced(before, table, i, slot, remote, synced, strays, nextId, emptied);
        if !wrapped { ClearExact(before, table, i, slot, remote, synced, epoch, emptied); }
        if !ok {
          synced := SyncedCleared(synced, before, i, emptied);
          return;
        }
      }
      ClearTraced(before, table, i, -1, remote, synced, strays, nextId, emptied);
      if !wrapped { ClearExact(before, table, i, -1, remote, synced, epoch, emptied); }
      synced := SyncedCleared(synced, before, i, emptied);
      probes := probes[i := probes[i].(slot := -1)];
      assert probes == before[i := Probe(id, -1, NoAction)];
      assert remote == Emptied(table, slot);
      ok := WriteCount();
    }

    // A new probe takes the first unused entry.
    method Register() returns (id: nat)
      requires Valid()
      modifies this`probes, this`nextId
      ensures Valid() && Actions(probes) == old(Actions(probes))
      ensures old(InStep()) ==> InStep()
      ensures var i := Find(old(probes), 0);
              if i < PROBES
              then id == old(nextId) && nextId == id + 1 && probes == old(probes)[i := Probe(id, -1, NoAction)]
              else id == 0 && probes == old(probes) && nextId == old(nextId)
    {
      hide Find;
      hide Sound;
      hide Mirrored;
      hide Actions;
      hide IdsBelow;
      hide Count;
      hide Traced;
      hide Exact;
      SoundLength(probes);
      var i := Find(probes, 0);
      if i == |probes| {
        return 0;
      }
      id := nextId;
      Registered(probes, remote, i, nextId);
      EntryTraced(probes, remote, i, Probe(id, -1, NoAction), synced, strays, epoch, nextId, nextId + 1);
      probes := probes[i := Probe(id, -1, NoAction)];
      nextId := nextId + 1;
    }

    /** Forgets a probe, clearing its action first. It reports success even if the clear
        fails: the shared table stays in step exactly if the clear's own writes succeed, and
        a probe shown only in its own slot stays shown exactly if the first one fails. */
    method Remove(id: nat) returns (ok: bool)
      requires Valid()
      modifies this
      ensures Valid() && nextId == old(nextId) && epoch == old(epoch) && strays == old(strays) && wrapped == old(wrapped) && issued == old(issued)
      ensures ok <==> Known(old(probes), id)
      ensures ok ==>
                var i := Find(old(probes), id);
                var p := old(probes)[i];
                && Actions(probes) == old(Actions(probes)) - {id} && probes == old(probes)[i := NoProbe]
                && (old(InStep()) ==> (InStep() <==> !Active(p) || Calm(faults, old(writes), 3)))
                && (Active(p) && id !in strays ==>
                      ((exists j :: 0 <= j < SLOTS && Shows(remote[j], id)) <==> !Calm(faults, old(writes), 1) && Shows(old(remote)[p.slot], id)))
                && (!Active(p) ==> remote == old(remote) && count == old(count) && writes == old(writes) && synced == old(synced))
      ensures !ok ==> probes == old(probes) && remote == old(remote) && count == old(count) && synced == old(synced)
    {
      hide Find;
      hide Sound;
      hide Mirrored;
      hide Actions;
      hide IdsBelow;
      hide Disturbed;
      hide Count;
      hide Traced;
      hide Exact;
      hide SyncedCleared;
      if id == 0 {
        return false;
      }
      SoundLength(probes);
      var i := Find(probes, id);
      if i == |probes| {
        return false;
      }
      InActions(probes, id);
      ghost var p, was, calm, before := probes[i], probes, Calm(faults, writes, 3), remote;
      SlotOfActive(probes, i);
      ShownInPlace(was, before, i, synced, strays, nextId);
      if probes[i].action.enabled != 0 {
        var done := Clear(id);
        CountDrops(was, i, probes[i]);
        OthersDoNotShow(before, remote, p.slot, id);
      }
      assert probes[i].id == id && !Active(probes[i]);
      Removed(probes, remote, i, nextId);
      EntryTraced(probes, remote, i, NoProbe, synced, strays, epoch, nextId, nextId);
      probes := probes[i := NoProbe];
      assert probes == was[i := NoProbe];
      return true;
    }

    /** The payload's lookup, with nobody writing and whatever writes have failed. For a
        probe that is shown in no foreign slot it finds the action exactly if that is
        published and the shared count is not zero; nothing for a probe without a slot.
        With the table in step it finds exactly the actions in force. */
    method FindCallAction(id: nat) returns (found: bool, action: CallAction)
      requires |remote| == SLOTS
      ensures found <==> count != 0 && id != 0 && exists j :: 0 <= j < SLOTS && Matches(remote[j], id)
      ensures found ==> Matches(action, id) && action == remote[FirstSlot(remote, id)]
      ensures Valid() && Known(probes, id) && id !in strays ==>
                var p := probes[Find(probes, id)];
                && (found <==> count != 0 && SlotValid(p.slot) && Matches(remote[p.slot], id))
                && (found ==> action == remote[p.slot])
                && (Active(p) && !wrapped ==> (found && action == p.action <==> count != 0 && p.action.callee != 0 && id in synced))
      ensures Valid() && InStep() ==>
                (found <==> id in Actions(probes) && Actions(probes)[id].callee != 0)
                && (found ==> action == Actions(probes)[id])
    {
      hide Sound;
      hide Actions;
      hide Traced;
      hide Exact;
      hide IdsBelow;
      hide Find;
      hide Mirrored;
      action := NoAction;
      ghost var consistent := Valid() && InStep();
      ghost var alone := Valid() && Known(probes, id) && id !in strays;
      if consistent {
        InActions(probes, id);
        CountZero(probes);
        SoundLength(probes);
      }
      if alone { OnlyItsSlotMatches(probes, remote, synced, strays, nextId, Find(probes, id)); }
      if alone && !wrapped { SyncedMatches(probes, remote, synced, epoch, strays, nextId, Find(probes, id)); }
      if count == 0 || id == 0 {
        return false, action;
      }
      if consistent {
        OnlyTheOwnerMatches(probes, remote, count, id);
      }
      found, action := FirstMatch(id);
    }

    // The home slot, then all others.
    method FirstMatch(id: nat) returns (found: bool, action: CallAction)
      requires |remote| == SLOTS
      ensures found <==> exists j :: 0 <= j < SLOTS && Matches(remote[j], id)
      ensures found ==> Matches(action, id) && action == remote[FirstSlot(remote, id)]
    {
      action := NoAction;
      var home := id % SLOTS;
      if Matches(remote[home], id) {
        return true, remote[home];
      }
      var i := 0;
      while i < SLOTS
        invariant i <= SLOTS
        invariant forall j | 0 <= j < i :: !Matches(remote[j], id)
      {
        if i != home && Matches(remote[i], id) {
          FirstMatching(remote, id, i);
          return true, remote[i];
        }
        i := i + 1;
      }
      return false, action;
    }
  }

  // The first slot from j on that matches.
  function MatchingFrom(remote: seq<CallAction>, id: nat, j: nat): (s: nat)
    requires j < |remote|
    ensures j <= s < |remote|
    decreases |remote| - j
  {
    if Matches(remote[j], id) || j + 1 == |remote| then j else MatchingFrom(remote, id, j + 1)
  }

  // The slot the lookup takes when several match: the home slot, else the lowest.
  function FirstSlot(remote: seq<CallAction>, id: nat): (s: nat)
    requires |remote| == SLOTS
    ensures s < SLOTS
  {
    if Matches(remote[id % SLOTS], id) then id % SLOTS else MatchingFrom(remote, id, 0)
  }

  lemma {:induction false} MatchingIs(remote: seq<CallAction>, id: nat, j: nat, i: nat)
    requires j <= i < |remote| && Matches(remote[i], id) && forall k | j <= k < i :: !Matches(remote[k], id)
    ensures MatchingFrom(remote, id, j) == i
    decreases i - j
  {
    if j < i {
      MatchingIs(remote, id, j + 1, i);
    }
  }

  lemma FirstMatching(remote: seq<CallAction>, id: nat, i: nat)
    requires |remote| == SLOTS && i < SLOTS && Matches(remote[i], id) && !Matches(remote[id % SLOTS], id)
    requires forall k | 0 <= k < i :: !Matches(remote[k], id)
    ensures FirstSlot(remote, id) == i
  {
    MatchingIs(remote, id, 0, i);
  }

  // Probes 1 and 33, whose home is slot 1, in the first two entries.
  ghost predicate TwoProbes(probes: seq<Probe>, first: Probe, second: Probe) {
    |probes| == PROBES && probes[0] == first && probes[1] == second && forall i | 2 <= i < PROBES :: probes[i] == NoProbe
  }

  // A fresh session in which 31 probes have come and gone between probe 1 and probe 33.
  method ProbesOneAndThirtyThree(faults: set<nat>) returns (t: Table)
    ensures fresh(t) && t.Valid() && t.faults == faults && t.writes == 0 && t.strays == {} && !t.wrapped && t.epoch == 0
    ensures TwoProbes(t.probes, Probe(1, -1, NoAction), Probe(33, -1, NoAction))
  {
    t := new Table(faults);
    hide Sound;
    hide IdsBelow;
    hide Traced;
    hide Exact;
    hide Actions;
    hide Mirrored;
    hide Find;
    FindFirst(t.probes, 0, 0);
    var id := t.Register();
    var k := 2;
    while k < 33
      invariant 2 <= k <= 33 && fresh(t) && t.Valid() && t.nextId == k && t.faults == faults
      invariant t.writes == 0 && t.strays == {} && !t.wrapped && t.epoch == 0
      invariant TwoProbes(t.probes, Probe(1, -1, NoAction), NoProbe)
    {
      FindFirst(t.probes, 1, 0);
      id := t.Register();
      FindFirst(t.probes, 1, k);
      var ok := t.Remove(id);
      k := k + 1;
    }
    FindFirst(t.probes, 1, 0);
    id := t.Register();
  }

  lemma FindFirst(probes: seq<Probe>, i: nat, id: nat)
    requires i < |probes| && probes[i].id == id && forall k | 0 <= k < i :: probes[k].id != id
    ensures Find(probes, id) == i
  {
  }

  // A probe whose home slot nobody uses gets it.
  lemma HomeIsFree(probes: seq<Probe>, i: nat, slot: int)
    requires i < |probes| && !SlotValid(probes[i].slot) && GivenSlot(probes, i, slot)
    requires forall k | 0 <= k < |probes| && k != i :: !Active(probes[k])
    ensures slot == probes[i].id % SLOTS
  {
    var offset: nat :| slot == HomeSlot(probes[i].id, offset) && forall o: nat | o < offset :: Taken(probes, i, HomeSlot(probes[i].id, o));
    assert !Taken(probes, i, HomeSlot(probes[i].id, 0));
  }

  // Probe 1 has an action, published in its home slot 1.
  method AfterTheFirstUpdate() returns (t: Table)
    ensures fresh(t) && t.Valid() && t.faults == {4} && t.writes == 4 && t.strays == {} && !t.wrapped && t.epoch == 1
    ensures |t.probes| == PROBES && TwoProbes(t.probes, t.probes[0], Probe(33, -1, NoAction))
    ensures t.probes[0].id == 1 && t.probes[0].slot == 1
  {
    t := ProbesOneAndThirtyThree({4});
    hide Sound;
    hide IdsBelow;
    hide Traced;
    hide Exact;
    hide Actions;
    hide Mirrored;
    hide Find;
    hide GivenSlot;
    FindFirst(t.probes, 0, 1);
    ghost var before := t.probes;
    var given := t.Update(1, true, 100, []);
    HomeIsFree(before, 0, t.probes[0].slot);
  }

  // The first write of the first attempt to clear it fails, so probe 1 keeps slot 1.
  method AfterAFailedClear() returns (t: Table)
    ensures fresh(t) && t.Valid() && t.faults == {4} && t.writes == 5 && t.strays == {} && !t.wrapped && t.epoch == 1
    ensures TwoProbes(t.probes, Probe(1, 1, NoAction), Probe(33, -1, NoAction))
  {
    t := AfterTheFirstUpdate();
    hide Sound;
    hide IdsBelow;
    hide Traced;
    hide Exact;
    hide Actions;
    hide Mirrored;
    hide Find;
    hide Holders;
    FindFirst(t.probes, 0, 1);
    var cleared := t.Clear(1);
  }

  // Probe 33 is given that slot.
  method AfterReuse() returns (t: Table)
    ensures fresh(t) && t.Valid() && t.faults == {4} && t.writes == 9 && t.strays == {} && !t.wrapped
    ensures |t.probes| == PROBES && t.probes[0] == Probe(1, 1, NoAction)
    ensures t.probes[1].id == 33 && t.probes[1].slot == 1 && Active(t.probes[1]) && t.probes[1].action.callee == 200
  {
    t := AfterAFailedClear();
    hide Sound;
    hide IdsBelow;
    hide Traced;
    hide Exact;
    hide Actions;
    hide Mirrored;
    hide Find;
    hide GivenSlot;
    FindFirst(t.probes, 1, 33);
    ghost var before := t.probes;
    var given := t.Update(33, true, 200, []);
    HomeIsFree(before, 1, t.probes[1].slot);
  }

  /** A clear that is tried again: the first write of the first attempt fails, so probe 1
      keeps slot 1; probe 33 is given that slot; and the second attempt empties it. The
      action of probe 33 is in force, all later writes succeeded, and the payload does not
      find it. */
  method RetriedClearSilencesAnother() returns (t: Table, retried: bool, found: bool)
    ensures t.Valid() && retried && !found
    ensures 33 in Actions(t.probes) && Actions(t.probes)[33].callee != 0
  {
    t := AfterReuse();
    hide Sound;
    hide IdsBelow;
    hide Traced;
    hide Exact;
    hide Actions;
    hide Mirrored;
    hide Find;
    hide Holders;
    FindFirst(t.probes, 0, 1);
    retried := t.Clear(1);
    FindFirst(t.probes, 1, 33);
    InActions(t.probes, 33);
    var action;
    found, action := t.FindCallAction(33);
  }
}

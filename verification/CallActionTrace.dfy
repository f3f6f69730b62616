/** What is known of single probes whatever remote writes have failed: whose current action
    is published, and whether a probe's id is shown in any slot but its own. */
module CallActionTrace {
  import opened Words
  import opened CallActionSlots

  // The payload could take this slot for the probe's.
  predicate Shows(a: CallAction, id: nat) {
    a.enabled != 0 && a.probeId == id
  }

  // `synced` are the ids whose current action their slot holds. An id not in `strays` is
  // shown nowhere but in the slot its probe remembers.
  ghost predicate TracedAt(p: Probe, remote: seq<CallAction>, synced: set<nat>, strays: set<nat>)
    requires |remote| == SLOTS
  {
    p.id != 0 ==>
      && (Active(p) && SlotValid(p.slot) && p.id in synced ==> remote[p.slot] == p.action)
      && (p.id !in strays ==> forall j | 0 <= j < SLOTS && Shows(remote[j], p.id) :: j == p.slot)
  }

  ghost predicate Traced(probes: seq<Probe>, remote: seq<CallAction>, synced: set<nat>, strays: set<nat>, next: nat) {
    && |remote| == SLOTS
    && (forall i | 0 <= i < |probes| :: TracedAt(probes[i], remote, synced, strays))
    && (forall j | 0 <= j < SLOTS && remote[j].enabled != 0 :: remote[j].probeId < next)
    && (forall id | id in strays :: id < next)
  }

  // As long as epochs have not wrapped around, an action in its slot is one known to be
  // synced.
  ghost predicate Exact(probes: seq<Probe>, remote: seq<CallAction>, synced: set<nat>, epoch: nat)
    requires |remote| == SLOTS
  {
    && (forall j | 0 <= j < SLOTS :: remote[j].enabled <= epoch)
    && (forall i | 0 <= i < |probes| :: ExactAt(probes[i], remote, synced))
  }

  ghost predicate ExactAt(p: Probe, remote: seq<CallAction>, synced: set<nat>)
    requires |remote| == SLOTS
  {
    Active(p) && SlotValid(p.slot) && remote[p.slot] == p.action ==> p.id in synced
  }

  // The ids of the probes with an action in this slot.
  ghost function Holders(probes: seq<Probe>, slot: int): set<nat> {
    set i | 0 <= i < |probes| && Active(probes[i]) && probes[i].slot == slot :: probes[i].id
  }

  /* Update: only the slot of probe i may have changed, to nothing or to the new action. */

  // The ids synced after an attempt to publish.
  ghost function SyncedAfter(synced: set<nat>, id: nat, published: bool): set<nat> {
    if published then synced + {id} else synced - {id}
  }

  // The probe leaves a slot that still shows it.
  ghost predicate LeavesStray(p: Probe, slot: int, remote: seq<CallAction>)
    requires |remote| == SLOTS
  {
    SlotValid(p.slot) && p.slot != slot && Shows(remote[p.slot], p.id)
  }

  ghost function StraysAfter(strays: set<nat>, p: Probe, slot: int, remote: seq<CallAction>): set<nat>
    requires |remote| == SLOTS
  {
    if LeavesStray(p, slot, remote) then strays + {p.id} else strays
  }

  lemma UpdateTraced(probes: seq<Probe>, remote: seq<CallAction>, i: nat, p: Probe, remote': seq<CallAction>,
                     synced: set<nat>, strays: set<nat>, next: nat, published: bool)
    requires Sound(probes) && Traced(probes, remote, synced, strays, next) && i < |probes| && probes[i].id == p.id && p.id < next
    requires Active(p) && SlotValid(p.slot) && p.action.probeId == p.id && !Taken(probes, i, p.slot)
    requires |remote'| == SLOTS && remote' == remote[p.slot := remote'[p.slot]]
    requires if published then remote'[p.slot] == p.action else remote'[p.slot] == remote[p.slot] || remote'[p.slot].enabled == 0
    ensures Traced(probes[i := p], remote', SyncedAfter(synced, p.id, published), StraysAfter(strays, probes[i], p.slot, remote), next)
  {
    var synced', strays' := SyncedAfter(synced, p.id, published), StraysAfter(strays, probes[i], p.slot, remote);
    var after := probes[i := p];
    assert TracedAt(probes[i], remote, synced, strays);
    forall k | 0 <= k < |probes| ensures TracedAt(after[k], remote', synced', strays') {
      if k != i {
        assert TracedAt(probes[k], remote, synced, strays) && ProbeSound(probes[k]);
      }
    }
  }

  lemma UpdateExact(probes: seq<Probe>, remote: seq<CallAction>, i: nat, p: Probe, remote': seq<CallAction>,
                    synced: set<nat>, epoch: nat, published: bool)
    requires Sound(probes) && |remote| == SLOTS && Exact(probes, remote, synced, epoch) && i < |probes| && probes[i].id == p.id
    requires Active(p) && SlotValid(p.slot) && !Taken(probes, i, p.slot) && p.action.enabled == epoch + 1
    requires |remote'| == SLOTS && remote' == remote[p.slot := remote'[p.slot]]
    requires if published then remote'[p.slot] == p.action else remote'[p.slot] == remote[p.slot] || remote'[p.slot].enabled == 0
    ensures Exact(probes[i := p], remote', SyncedAfter(synced, p.id, published), epoch + 1)
  {
    var after, synced' := probes[i := p], SyncedAfter(synced, p.id, published);
    forall k | 0 <= k < |probes| ensures ExactAt(after[k], remote', synced') {
      if k != i {
        assert ExactAt(probes[k], remote, synced) && ProbeSound(probes[k]);
      }
    }
  }

  /* Clear: the slot the probe remembers is unchanged or shows nothing any more. */

  // `emptied` says that the disabling write went through.
  ghost function SyncedCleared(synced: set<nat>, probes: seq<Probe>, i: nat, emptied: bool): set<nat>
    requires i < |probes|
  {
    synced - {probes[i].id} - (if emptied then Holders(probes, probes[i].slot) else {})
  }

  lemma ClearTraced(probes: seq<Probe>, remote: seq<CallAction>, i: nat, slot: int, remote': seq<CallAction>,
                    synced: set<nat>, strays: set<nat>, next: nat, emptied: bool)
    requires Sound(probes) && Traced(probes, remote, synced, strays, next) && i < |probes| && probes[i].id != 0
    requires |remote'| == SLOTS && (slot == probes[i].slot || slot == -1)
    requires if emptied
             then SlotValid(probes[i].slot) && remote' == remote[probes[i].slot := remote'[probes[i].slot]] && remote'[probes[i].slot].enabled == 0
             else remote' == remote && slot == probes[i].slot
    ensures Traced(probes[i := Probe(probes[i].id, slot, NoAction)], remote', SyncedCleared(synced, probes, i, emptied), strays, next)
  {
    var s := probes[i].slot;
    var after, synced' := probes[i := Probe(probes[i].id, slot, NoAction)], SyncedCleared(synced, probes, i, emptied);
    assert TracedAt(probes[i], remote, synced, strays);
    forall k | 0 <= k < |probes| ensures TracedAt(after[k], remote', synced', strays) {
      assert TracedAt(probes[k], remote, synced, strays) && ProbeSound(probes[k]);
      if Active(probes[k]) && probes[k].slot == s {
        assert probes[k].id in Holders(probes, s);
      }
    }
  }

  lemma ClearExact(probes: seq<Probe>, remote: seq<CallAction>, i: nat, slot: int, remote': seq<CallAction>,
                   synced: set<nat>, epoch: nat, emptied: bool)
    requires Sound(probes) && |remote| == SLOTS && Exact(probes, remote, synced, epoch) && i < |probes| && probes[i].id != 0
    requires |remote'| == SLOTS
    requires if emptied
             then SlotValid(probes[i].slot) && remote' == remote[probes[i].slot := remote'[probes[i].slot]] && remote'[probes[i].slot].enabled == 0
             else remote' == remote
    ensures Exact(probes[i := Probe(probes[i].id, slot, NoAction)], remote', SyncedCleared(synced, probes, i, emptied), epoch)
  {
    var s := probes[i].slot;
    var after, synced' := probes[i := Probe(probes[i].id, slot, NoAction)], SyncedCleared(synced, probes, i, emptied);
    forall k | 0 <= k < |probes| ensures ExactAt(after[k], remote', synced') {
      assert ExactAt(probes[k], remote, synced) && ProbeSound(probes[k]);
      if k != i && Active(probes[k]) && probes[k].slot != s {
        NotAHolder(probes, k, s);
        assert probes[k].id != probes[i].id;
      }
    }
  }

  lemma NotAHolder(probes: seq<Probe>, k: nat, s: int)
    requires Sound(probes) && k < |probes| && Active(probes[k]) && probes[k].slot != s
    ensures probes[k].id !in Holders(probes, s)
  {
  }

  // Entries without an action come and go.
  lemma EntryTraced(probes: seq<Probe>, remote: seq<CallAction>, i: nat, p: Probe, synced: set<nat>, strays: set<nat>,
                    epoch: nat, next: nat, next': nat)
    requires Traced(probes, remote, synced, strays, next) && i < |probes| && next <= next'
    requires p.id == 0 || (!Active(p) && p.slot == -1 && p.id >= next)
    ensures Traced(probes[i := p], remote, synced, strays, next')
    ensures Exact(probes, remote, synced, epoch) ==> Exact(probes[i := p], remote, synced, epoch)
  {
    var after := probes[i := p];
    forall k | 0 <= k < |probes| ensures TracedAt(after[k], remote, synced, strays) {
      assert TracedAt(probes[k], remote, synced, strays);
    }
    if Exact(probes, remote, synced, epoch) {
      forall k | 0 <= k < |probes| ensures ExactAt(after[k], remote, synced) {
        assert ExactAt(probes[k], remote, synced);
      }
    }
  }

  lemma ShownInPlace(probes: seq<Probe>, remote: seq<CallAction>, i: nat, synced: set<nat>, strays: set<nat>, next: nat)
    requires Traced(probes, remote, synced, strays, next) && i < |probes| && probes[i].id != 0
    ensures probes[i].id !in strays ==> forall j | 0 <= j < SLOTS && j != probes[i].slot :: !Shows(remote[j], probes[i].id)
  {
    assert TracedAt(probes[i], remote, synced, strays);
  }

  lemma OthersDoNotShow(remote: seq<CallAction>, remote': seq<CallAction>, slot: int, id: nat)
    requires |remote| == |remote'| == SLOTS && SlotValid(slot)
    requires remote' == remote || (remote' == remote[slot := remote'[slot]] && remote'[slot].enabled == 0)
    ensures (forall j | 0 <= j < SLOTS && j != slot :: !Shows(remote[j], id)) ==>
              ((exists j :: 0 <= j < SLOTS && Shows(remote'[j], id)) <==> Shows(remote'[slot], id))
  {
  }

  lemma OnlyItsSlotMatches(probes: seq<Probe>, remote: seq<CallAction>, synced: set<nat>, strays: set<nat>, next: nat, i: nat)
    requires Traced(probes, remote, synced, strays, next) && i < |probes| && probes[i].id != 0 && probes[i].id !in strays
    ensures forall j | 0 <= j < SLOTS && Matches(remote[j], probes[i].id) :: j == probes[i].slot
  {
    assert TracedAt(probes[i], remote, synced, strays);
  }

  lemma SyncedMatches(probes: seq<Probe>, remote: seq<CallAction>, synced: set<nat>, epoch: nat, strays: set<nat>, next: nat, i: nat)
    requires Sound(probes) && Traced(probes, remote, synced, strays, next) && Exact(probes, remote, synced, epoch)
    requires i < |probes|
    ensures Active(probes[i]) ==>
              && SlotValid(probes[i].slot) && (remote[probes[i].slot] == probes[i].action <==> probes[i].id in synced)
              && (Matches(probes[i].action, probes[i].id) <==> probes[i].action.callee != 0)
  {
    assert TracedAt(probes[i], remote, synced, strays) && ExactAt(probes[i], remote, synced) && ProbeSound(probes[i]);
  }
}

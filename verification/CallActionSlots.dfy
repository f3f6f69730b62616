/** Which of the 32 shared slots holds which probe's call action. The tracer keeps an
    action and a slot in every probe; the payload looks a probe up by trying its home slot
    first and then all others, and gives up at once when the shared count is zero. */
module CallActionSlots {
  import opened Words
  import Pigeonhole

  const PROBES: nat := 32
  const SLOTS: nat := 32
  const ARG_CAP: nat := 6
  const CONST_ARG: Word := 1
  const ENTRY_ARG: Word := 2

  datatype Arg = Arg(kind: Word, value: Word)

  // `enabled` is the epoch of the action, 0 for none.
  datatype CallAction = CallAction(enabled: Word, probeId: nat, callee: Word, args: seq<Arg>)

  // An unused entry has id 0.
  datatype Probe = Probe(id: nat, slot: int, action: CallAction)

  const NoAction: CallAction := CallAction(0, 0, 0, [])
  const NoProbe: Probe := Probe(0, 0, NoAction)

  predicate Active(p: Probe) {
    p.id != 0 && p.action.enabled != 0
  }

  predicate SlotValid(slot: int) {
    0 <= slot < SLOTS
  }

  // Index of the probe with this id, or |probes|.
  function Find(probes: seq<Probe>, id: nat): (i: nat)
    ensures i <= |probes|
    ensures i < |probes| ==> probes[i].id == id
    ensures forall k | 0 <= k < i :: probes[k].id != id
  {
    if probes == [] then 0
    else if probes[0].id == id then 0
    else 1 + Find(probes[1..], id)
  }

  /** The call actions in force, by probe id. */
  ghost function Actions(probes: seq<Probe>): map<nat, CallAction> {
    map id: nat | id in Ids(probes) && Active(probes[Find(probes, id)]) :: probes[Find(probes, id)].action
  }

  ghost function Ids(probes: seq<Probe>): set<nat>
    ensures forall id | id in Ids(probes) :: Find(probes, id) < |probes|
  {
    set i | 0 <= i < |probes| :: probes[i].id
  }

  ghost predicate UniqueIds(probes: seq<Probe>) {
    forall i, k | 0 <= i < k < |probes| && probes[i].id != 0 :: probes[i].id != probes[k].id
  }

  ghost predicate IdsBelow(probes: seq<Probe>, next: nat) {
    next > 0 && forall i | 0 <= i < |probes| :: probes[i].id < next
  }

  // Holds whatever remote writes fail: the tracer's own bookkeeping.
  ghost predicate Sound(probes: seq<Probe>) {
    && |probes| == PROBES
    && UniqueIds(probes)
    && (forall i | 0 <= i < PROBES :: ProbeSound(probes[i]))
    && (forall i, k | 0 <= i < k < PROBES && Active(probes[i]) && Active(probes[k]) ::
          probes[i].slot != probes[k].slot)
  }

  ghost predicate ProbeSound(p: Probe) {
    && (p.id != 0 ==> -1 <= p.slot < SLOTS)
    && (Active(p) ==> SlotValid(p.slot) && p.action.probeId == p.id && |p.action.args| <= ARG_CAP)
  }

  // Holds after operations whose writes all succeeded: the shared table says the same.
  ghost predicate Published(probes: seq<Probe>, remote: seq<CallAction>, count: nat) {
    Mirrored(probes, remote) && count == Count(probes)
  }

  ghost predicate Mirrored(probes: seq<Probe>, remote: seq<CallAction>) {
    && |remote| == SLOTS
    && (forall i | 0 <= i < |probes| :: ProbePublished(probes[i], remote))
    && (forall j | 0 <= j < SLOTS && remote[j].enabled != 0 :: Owned(probes, j))
  }

  ghost predicate ProbePublished(p: Probe, remote: seq<CallAction>)
    requires |remote| == SLOTS
  {
    && (p.id != 0 && !Active(p) ==> p.slot == -1)
    && (Active(p) && SlotValid(p.slot) ==> remote[p.slot] == p.action)
  }

  ghost predicate Owned(probes: seq<Probe>, slot: int) {
    exists i :: 0 <= i < |probes| && Active(probes[i]) && probes[i].slot == slot
  }

  // A probe other than the owner keeps an action in this slot.
  ghost predicate Taken(probes: seq<Probe>, owner: nat, slot: int) {
    exists i :: 0 <= i < |probes| && i != owner && Active(probes[i]) && probes[i].slot == slot
  }

  function Count(probes: seq<Probe>): nat {
    if probes == [] then 0
    else Count(probes[..|probes| - 1]) + if Active(probes[|probes| - 1]) then 1 else 0
  }

  lemma {:induction false} CountZero(probes: seq<Probe>)
    ensures Count(probes) == 0 <==> forall i | 0 <= i < |probes| :: !Active(probes[i])
  {
    if probes != [] {
      CountZero(probes[..|probes| - 1]);
      assert forall i | 0 <= i < |probes| - 1 :: probes[..|probes| - 1][i] == probes[i];
    }
  }

  /** With 32 probes and 32 slots, some slot is always free for the owner. */
  lemma SomeSlotFree(probes: seq<Probe>, owner: nat)
    requires |probes| == PROBES && owner < PROBES
    ensures exists j :: 0 <= j < SLOTS && !Taken(probes, owner, j)
  {
    var f := seq(PROBES, k requires 0 <= k < PROBES => if Active(probes[k]) then probes[k].slot else -1);
    var j := Pigeonhole.SlotLeft(f, owner);
    forall k | 0 <= k < PROBES && k != owner && Active(probes[k]) ensures probes[k].slot != j {
      assert f[k] == probes[k].slot;
    }
    assert !Taken(probes, owner, j);
  }

  lemma UniqueFind(probes: seq<Probe>, i: nat)
    requires UniqueIds(probes) && i < |probes| && probes[i].id != 0
    ensures Find(probes, probes[i].id) == i
  {
  }

  // The entries with their ids decide what Find returns.
  lemma {:induction false} FindSameIds(probes: seq<Probe>, others: seq<Probe>, id: nat)
    requires |probes| == |others| && forall k | 0 <= k < |probes| :: probes[k].id == others[k].id
    ensures Find(probes, id) == Find(others, id)
  {
    if probes != [] && probes[0].id != id {
      FindSameIds(probes[1..], others[1..], id);
    }
  }

  lemma InActions(probes: seq<Probe>, id: nat)
    ensures id in Actions(probes) <==> Find(probes, id) < |probes| && Active(probes[Find(probes, id)])
    ensures id in Actions(probes) ==> Actions(probes)[id] == probes[Find(probes, id)].action
  {
    if Find(probes, id) < |probes| {
      assert probes[Find(probes, id)].id in Ids(probes);
    }
  }

  // The map after giving a probe this action; a disabled action removes it.
  ghost function Given(actions: map<nat, CallAction>, id: nat, a: CallAction): map<nat, CallAction> {
    if a.enabled != 0 then actions[id := a] else actions - {id}
  }

  lemma ActionAfter(probes: seq<Probe>, i: nat, p: Probe, id: nat)
    requires UniqueIds(probes) && i < |probes| && probes[i].id != 0 && p.id == probes[i].id
    ensures id in Actions(probes[i := p]) <==> id in Given(Actions(probes), p.id, p.action)
    ensures id in Actions(probes[i := p]) ==> Actions(probes[i := p])[id] == Given(Actions(probes), p.id, p.action)[id]
  {
    hide Actions;
    var after := probes[i := p];
    FindSameIds(probes, after, id);
    InActions(probes, id);
    InActions(after, id);
    UniqueFind(probes, i);
    hide Find;
  }

  // Replacing one entry by one with the same id changes only that probe's action.
  lemma ActionsAfter(probes: seq<Probe>, i: nat, p: Probe)
    requires UniqueIds(probes) && i < |probes| && probes[i].id != 0 && p.id == probes[i].id
    ensures Actions(probes[i := p]) == Given(Actions(probes), p.id, p.action)
  {
    hide *;
    forall id: nat ensures id in Actions(probes[i := p]) <==> id in Given(Actions(probes), p.id, p.action)
                   ensures id in Actions(probes[i := p]) ==> Actions(probes[i := p])[id] == Given(Actions(probes), p.id, p.action)[id] {
      ActionAfter(probes, i, p, id);
    }
  }

  // The payload's test of one slot, with the table at rest.
  predicate Matches(a: CallAction, id: nat) {
    a.enabled != 0 && a.probeId == id && a.callee != 0 && |a.args| <= ARG_CAP
  }

  /** With the table published, a slot matches a probe id exactly if that probe's action
      is in force, has a callee, and sits in this slot. */
  lemma MatchIsOwner(probes: seq<Probe>, remote: seq<CallAction>, count: nat, id: nat, j: nat)
    requires Sound(probes) && Published(probes, remote, count) && j < SLOTS && id != 0
    ensures Matches(remote[j], id) ==> id in Actions(probes) && Actions(probes)[id] == remote[j]
    ensures id in Actions(probes) && Actions(probes)[id].callee != 0 && probes[Find(probes, id)].slot == j ==>
              Matches(remote[j], id)
  {
    InActions(probes, id);
    hide Actions;
    if Matches(remote[j], id) {
      assert Owned(probes, j);
      var i :| 0 <= i < |probes| && Active(probes[i]) && probes[i].slot == j;
      assert ProbePublished(probes[i], remote) && ProbeSound(probes[i]);
      UniqueFind(probes, i);
    }
    if id in Actions(probes) {
      var i := Find(probes, id);
      assert ProbePublished(probes[i], remote) && ProbeSound(probes[i]);
    }
  }

  predicate ArgsValid(args: seq<Arg>) {
    |args| <= ARG_CAP && forall i | 0 <= i < |args| ::
      args[i].kind == CONST_ARG || (args[i].kind == ENTRY_ARG && args[i].value < ARG_CAP)
  }

  // 64-bit increment that skips 0.
  function NextEpoch(epoch: Word): (e: Word)
    ensures e != 0 && e != epoch
  {
    if epoch + 1 == TWO64 then 1 else epoch + 1
  }

  // Storing an action in a slot no other probe uses keeps tracer and table in step.
  lemma MirroredUpdate(probes: seq<Probe>, remote: seq<CallAction>, i: nat, p: Probe)
    requires Sound(probes) && Mirrored(probes, remote) && i < PROBES && Active(p) && SlotValid(p.slot)
    requires !Taken(probes, i, p.slot) && (Active(probes[i]) ==> probes[i].slot == p.slot)
    ensures Mirrored(probes[i := p], remote[p.slot := p.action])
  {
    var probes', remote' := probes[i := p], remote[p.slot := p.action];
    forall k | 0 <= k < |probes'| ensures ProbePublished(probes'[k], remote') {
      assert ProbePublished(probes[k], remote);
    }
    forall j | 0 <= j < SLOTS && remote'[j].enabled != 0 ensures Owned(probes', j) {
      if j == p.slot {
        assert probes'[i] == p;
      } else {
        assert Owned(probes, j);
        var k :| 0 <= k < |probes| && Active(probes[k]) && probes[k].slot == j;
        assert probes'[k] == probes[k];
      }
    }
  }

  // Emptying the slot of an active probe does, too.
  lemma MirroredClear(probes: seq<Probe>, remote: seq<CallAction>, i: nat, p: Probe)
    requires Sound(probes) && Mirrored(probes, remote) && i < PROBES
    requires p.id == 0 || (!Active(p) && p.slot == -1)
    ensures !Active(probes[i]) ==> Mirrored(probes[i := p], remote)
    ensures Active(probes[i]) ==> Mirrored(probes[i := p], remote[probes[i].slot := NoAction])
  {
    var probes' := probes[i := p];
    var remote' := if Active(probes[i]) then remote[probes[i].slot := NoAction] else remote;
    forall k | 0 <= k < |probes'| ensures ProbePublished(probes'[k], remote') {
      assert ProbePublished(probes[k], remote);
      assert ProbeSound(probes[k]);
    }
    forall j | 0 <= j < SLOTS && remote'[j].enabled != 0 ensures Owned(probes', j) {
      assert Owned(probes, j);
      var k :| 0 <= k < |probes| && Active(probes[k]) && probes[k].slot == j;
      assert probes'[k] == probes[k];
    }
  }

  // Changing one entry keeps the tracer's bookkeeping sound if the entry fits in.
  lemma SoundAfter(probes: seq<Probe>, i: nat, p: Probe)
    requires Sound(probes) && i < PROBES && ProbeSound(p)
    requires p.id == probes[i].id || p.id == 0 || forall k | 0 <= k < PROBES :: probes[k].id != p.id
    requires Active(p) ==> !Taken(probes, i, p.slot)
    ensures Sound(probes[i := p])
  {
    var probes' := probes[i := p];
    forall k | 0 <= k < PROBES ensures ProbeSound(probes'[k]) {
      assert ProbeSound(probes[k]);
    }
  }

  // Entries without an action can come and go without changing the actions in force.
  lemma ActionsUnchanged(probes: seq<Probe>, i: nat, p: Probe, id: nat)
    requires i < |probes| && UniqueIds(probes) && UniqueIds(probes[i := p]) && !Active(probes[i]) && !Active(p)
    ensures id in Actions(probes[i := p]) <==> id in Actions(probes)
    ensures id in Actions(probes) ==> Actions(probes[i := p])[id] == Actions(probes)[id]
  {
    hide Actions;
    var after := probes[i := p];
    InActions(probes, id);
    InActions(after, id);
    var k, k' := Find(probes, id), Find(after, id);
    hide Find;
    if id in Actions(probes) {
      assert after[k].id == id;
    }
    if id in Actions(after) {
      assert probes[k'].id == id;
    }
  }

  lemma ActionsKept(probes: seq<Probe>, i: nat, p: Probe)
    requires i < |probes| && UniqueIds(probes) && UniqueIds(probes[i := p]) && !Active(probes[i]) && !Active(p)
    ensures Actions(probes[i := p]) == Actions(probes)
  {
    hide *;
    forall id: nat ensures id in Actions(probes[i := p]) <==> id in Actions(probes)
                   ensures id in Actions(probes) ==> Actions(probes[i := p])[id] == Actions(probes)[id] {
      ActionsUnchanged(probes, i, p, id);
    }
  }

  ghost function Emptied(table: seq<CallAction>, slot: int): seq<CallAction>
    requires |table| == SLOTS
  {
    if SlotValid(slot) then table[slot := NoAction] else table
  }

  lemma Updated(probes: seq<Probe>, table: seq<CallAction>, i: nat, p: Probe, next: nat)
    requires Sound(probes) && |table| == SLOTS && i < |probes| && IdsBelow(probes, next)
    requires probes[i].id == p.id && Active(p) && p.action.probeId == p.id && |p.action.args| <= ARG_CAP
    requires SlotValid(p.slot) && !Taken(probes, i, p.slot)
    requires SlotValid(probes[i].slot) && !Taken(probes, i, probes[i].slot) ==> p.slot == probes[i].slot
    ensures Sound(probes[i := p]) && IdsBelow(probes[i := p], next)
    ensures Actions(probes[i := p]) == Actions(probes)[p.id := p.action]
    ensures Mirrored(probes, table) ==> Mirrored(probes[i := p], table[p.slot := p.action])
  {
    assert Active(probes[i]) ==> probes[i].slot == p.slot by {
      assert ProbeSound(probes[i]);
      assert forall k | 0 <= k < PROBES && k != i && Active(probes[i]) && Active(probes[k]) :: probes[k].slot != probes[i].slot;
    }
    SoundAfter(probes, i, p);
    ActionsAfter(probes, i, p);
    if Mirrored(probes, table) {
      MirroredUpdate(probes, table, i, p);
    }
  }

  lemma SoundLength(probes: seq<Probe>)
    requires Sound(probes)
    ensures |probes| == PROBES
  {
  }

  lemma Cleared(probes: seq<Probe>, i: nat, slot: int, next: nat)
    requires Sound(probes) && i < |probes| && probes[i].id != 0 && (slot == probes[i].slot || slot == -1)
    requires IdsBelow(probes, next)
    ensures -1 <= probes[i].slot < SLOTS
    ensures Sound(probes[i := Probe(probes[i].id, slot, NoAction)])
    ensures IdsBelow(probes[i := Probe(probes[i].id, slot, NoAction)], next)
    ensures Actions(probes[i := Probe(probes[i].id, slot, NoAction)]) == Actions(probes) - {probes[i].id}
  {
    assert ProbeSound(probes[i]);
    SoundAfter(probes, i, Probe(probes[i].id, slot, NoAction));
    ActionsAfter(probes, i, Probe(probes[i].id, slot, NoAction));
  }

  lemma ClearedMirror(probes: seq<Probe>, table: seq<CallAction>, i: nat)
    requires Sound(probes) && i < |probes| && probes[i].id != 0 && |table| == SLOTS
    ensures Mirrored(probes, table) ==>
              Mirrored(probes[i := Probe(probes[i].id, -1, NoAction)], Emptied(table, probes[i].slot))
  {
    if Mirrored(probes, table) {
      assert ProbePublished(probes[i], table) && ProbeSound(probes[i]);
      MirroredClear(probes, table, i, Probe(probes[i].id, -1, NoAction));
    }
  }

  // What emptying the slot that probe i remembers does to the others.
  ghost predicate Disturbed(probes: seq<Probe>, table: seq<CallAction>, i: nat, table': seq<CallAction>)
    requires i < |probes| && |table| == |table'| == SLOTS
  {
    forall k | 0 <= k < |probes| && k != i && Active(probes[k]) && SlotValid(probes[k].slot)
               && table[probes[k].slot] == probes[k].action ::
      table'[probes[k].slot] == probes[k].action <==> probes[k].slot != probes[i].slot
  }

  lemma ClearedOthers(probes: seq<Probe>, table: seq<CallAction>, i: nat)
    requires Sound(probes) && i < |probes| && |table| == SLOTS
    ensures Disturbed(probes, table, i, Emptied(table, probes[i].slot))
  {
  }

  lemma OnlyTheOwnerMatches(probes: seq<Probe>, remote: seq<CallAction>, count: nat, id: nat)
    requires Sound(probes) && Published(probes, remote, count) && id != 0
    ensures forall j | 0 <= j < SLOTS && Matches(remote[j], id) ::
              id in Actions(probes) && Actions(probes)[id].callee != 0 && Actions(probes)[id] == remote[j]
    ensures id in Actions(probes) && Actions(probes)[id].callee != 0 ==>
              exists j :: 0 <= j < SLOTS && Matches(remote[j], id)
  {
    forall j | 0 <= j < SLOTS && Matches(remote[j], id)
      ensures id in Actions(probes) && Actions(probes)[id].callee != 0 && Actions(probes)[id] == remote[j]
    {
      MatchIsOwner(probes, remote, count, id, j);
    }
    InActions(probes, id);
    hide Actions;
    if id in Actions(probes) && Actions(probes)[id].callee != 0 {
      assert ProbeSound(probes[Find(probes, id)]);
      MatchIsOwner(probes, remote, count, id, probes[Find(probes, id)].slot);
    }
  }

  lemma Removed(probes: seq<Probe>, table: seq<CallAction>, i: nat, next: nat)
    requires Sound(probes) && i < |probes| && probes[i].id != 0 && !Active(probes[i]) && IdsBelow(probes, next)
    ensures IdsBelow(probes[i := NoProbe], next)
    ensures Sound(probes[i := NoProbe])
    ensures Actions(probes[i := NoProbe]) == Actions(probes)
    ensures Count(probes[i := NoProbe]) == Count(probes)
    ensures Mirrored(probes, table) ==> Mirrored(probes[i := NoProbe], table)
    ensures probes[i].id !in Ids(probes[i := NoProbe])
  {
    SoundAfter(probes, i, NoProbe);
    ActionsKept(probes, i, NoProbe);
    CountKept(probes, i, NoProbe);
    if Mirrored(probes, table) {
      MirroredClear(probes, table, i, NoProbe);
    }
  }

  // Inactive entries do not count.
  lemma {:induction false} CountKept(probes: seq<Probe>, i: nat, p: Probe)
    requires i < |probes| && !Active(probes[i]) && !Active(p)
    ensures Count(probes[i := p]) == Count(probes)
  {
    var n := |probes| - 1;
    if i < n {
      CountKept(probes[..n], i, p);
      assert probes[i := p][..n] == probes[..n][i := p];
    } else {
      assert probes[i := p][..n] == probes[..n];
    }
  }

  // The slot tried at this offset from the home slot.
  function HomeSlot(id: nat, offset: nat): (slot: nat)
    ensures slot < SLOTS
  {
    (id % SLOTS + offset) % SLOTS
  }

  ghost predicate FirstFree(probes: seq<Probe>, i: nat, slot: int)
    requires i < |probes|
  {
    exists offset: nat :: slot == HomeSlot(probes[i].id, offset) && !Taken(probes, i, slot)
      && forall o: nat | o < offset :: Taken(probes, i, HomeSlot(probes[i].id, o))
  }

  lemma SomeOffsetFree(probes: seq<Probe>, i: nat, id: nat)
    requires |probes| == PROBES && i < PROBES
    ensures exists o: nat :: o < SLOTS && !Taken(probes, i, HomeSlot(id, o))
  {
    SomeSlotFree(probes, i);
    var j :| 0 <= j < SLOTS && !Taken(probes, i, j);
    var home := id % SLOTS;
    var o: nat := if j >= home then j - home else j + SLOTS - home;
    assert HomeSlot(id, o) == j;
  }

  // An action taken away is one less.
  lemma {:induction false} CountDrops(probes: seq<Probe>, i: nat, p: Probe)
    requires i < |probes| && Active(probes[i]) && !Active(p)
    ensures Count(probes[i := p]) == Count(probes) - 1
  {
    var n := |probes| - 1;
    if i < n {
      CountDrops(probes[..n], i, p);
      assert probes[i := p][..n] == probes[..n][i := p];
    } else {
      assert probes[i := p][..n] == probes[..n];
    }
  }

  // What a probe gets: the slot it has if no other action uses it, else the first free one.
  ghost predicate GivenSlot(probes: seq<Probe>, i: nat, slot: int)
    requires i < |probes|
  {
    if SlotValid(probes[i].slot) && !Taken(probes, i, probes[i].slot) then slot == probes[i].slot
    else FirstFree(probes, i, slot)
  }

  lemma IdBelow(probes: seq<Probe>, i: nat, next: nat)
    requires IdsBelow(probes, next) && i < |probes|
    ensures probes[i].id < next
  {
  }

  lemma SlotOfActive(probes: seq<Probe>, i: nat)
    requires Sound(probes) && i < |probes|
    ensures Active(probes[i]) ==> SlotValid(probes[i].slot)
  {
    assert ProbeSound(probes[i]);
  }

  lemma Registered(probes: seq<Probe>, table: seq<CallAction>, i: nat, next: nat)
    requires Sound(probes) && IdsBelow(probes, next) && i < |probes| && probes[i].id == 0
    ensures var after := probes[i := Probe(next, -1, NoAction)];
            && Sound(after) && IdsBelow(after, next + 1) && Actions(after) == Actions(probes) && Count(after) == Count(probes)
            && (Mirrored(probes, table) ==> Mirrored(after, table))
  {
    var p := Probe(next, -1, NoAction);
    SoundAfter(probes, i, p);
    ActionsKept(probes, i, p);
    CountKept(probes, i, p);
    if Mirrored(probes, table) {
      MirroredClear(probes, table, i, p);
    }
  }

  lemma ArgsFew(args: seq<Arg>)
    requires ArgsValid(args)
    ensures |args| <= ARG_CAP
  {
  }
}

/** What an install decides and leaves behind: the entry it works on, the slot the probe
    gets, and why a failed attempt can be undone. */
module ProbeInstall {
  import opened ByteString
  import opened Options
  import opened TrampolinePool
  import opened ProbeLifecycle
  import Pigeonhole

  // Symbol names are stored in 64 bytes including the terminator.
  function Stored(symbol: string): (r: string)
    ensures |symbol| < SYMBOL_MAX ==> r == symbol
  {
    if |symbol| < SYMBOL_MAX then symbol else symbol[..SYMBOL_MAX - 1]
  }

  // Index of the first entry with this id, or |probes|; id 0 finds an unused entry.
  function FindId(probes: seq<Probe>, id: nat): (i: nat)
    ensures i <= |probes|
    ensures i < |probes| ==> probes[i].id == id
    ensures forall k | 0 <= k < i :: probes[k].id != id
  {
    if probes == [] || probes[0].id == id then 0 else 1 + FindId(probes[1..], id)
  }

  function FindSymbol(probes: seq<Probe>, symbol: string): (i: nat)
    ensures i <= |probes|
    ensures i < |probes| ==> probes[i].id != 0 && probes[i].symbol == symbol
    ensures forall k | 0 <= k < i :: probes[k].id == 0 || probes[k].symbol != symbol
  {
    if probes == [] || (probes[0].id != 0 && probes[0].symbol == symbol) then 0
    else 1 + FindSymbol(probes[1..], symbol)
  }

  ghost predicate UniqueIds(probes: seq<Probe>, next: nat) {
    && next > 0
    && (forall i | 0 <= i < |probes| :: probes[i].id < next)
    && (forall i, k | 0 <= i < k < |probes| && probes[i].id != 0 :: probes[i].id != probes[k].id)
  }

  lemma FindsIt(probes: seq<Probe>, next: nat, i: nat)
    requires UniqueIds(probes, next) && i < |probes| && probes[i].id != 0
    ensures FindId(probes, probes[i].id) == i
  {
  }

  lemma UniqueIdsAfter(probes: seq<Probe>, next: nat, i: nat, p: Probe)
    requires UniqueIds(probes, next) && i < |probes| && (p.id == probes[i].id || p.id == 0)
    ensures UniqueIds(probes[i := p], next)
  {
  }

  // A null filter clears the probe's filter.
  function ChosenFilter(filter: Option<nat>): nat {
    if filter.Some? then filter.value else 0
  }

  // A probe as registered.
  function Fresh(id: nat, symbol: string, target: nat): Probe {
    Probe(id, symbol, target, 0, -1, [], Resolved, 0)
  }

  /* Which entry an install works on. */

  // The entry found or made for a name and what it holds then; None if the name does not
  // resolve or the table is full. A known name is looked up in full, a new one once more
  // as it would be stored.
  function Chosen(arch: Arch, probes: seq<Probe>, next: nat, symbol: string): Option<(nat, Probe)> {
    var known, stored := FindSymbol(probes, symbol), FindSymbol(probes, Stored(symbol));
    if known < |probes| then Some((known, probes[known]))
    else if arch.resolve(symbol).None? || Stored(symbol) == "" then None
    else if stored < |probes| then Some((stored, probes[stored]))
    else if FindId(probes, 0) == |probes| then None
    else Some((FindId(probes, 0), Fresh(next, Stored(symbol), arch.resolve(symbol).value)))
  }

  ghost predicate Names(probes: seq<Probe>, k: int, name: string) {
    0 <= k < |probes| && probes[k].id != 0 && probes[k].symbol == name
  }

  /** What registering a name does, entry by entry: a probe of that name is found; else a
      name that resolves is cut to 63 characters and found; else the first unused entry, if
      there is one, gets the next id, the cut name, the symbol's address and nothing else. */
  ghost predicate Registers(arch: Arch, probes: seq<Probe>, next: nat, symbol: string, i: nat, after: seq<Probe>) {
    var cut := if |symbol| < 64 then symbol else symbol[..63];
    if exists k :: Names(probes, k, symbol) then Names(probes, i, symbol) && after == probes
    else if arch.resolve(symbol).None? || symbol == "" then i == |probes| && after == probes
    else if exists k :: Names(probes, k, cut) then Names(probes, i, cut) && after == probes
    else if forall k | 0 <= k < |probes| :: probes[k].id != 0 then i == |probes| && after == probes
    else
      && i < |probes| && probes[i].id == 0 && (forall k | 0 <= k < i :: probes[k].id != 0)
      && after == probes[i := Probe(next, cut, arch.resolve(symbol).value, 0, -1, [], Resolved, 0)]
  }

  lemma ChosenRegisters(arch: Arch, probes: seq<Probe>, next: nat, symbol: string)
    ensures var c := Chosen(arch, probes, next, symbol);
            if c.None? then Registers(arch, probes, next, symbol, |probes|, probes)
            else c.value.0 < |probes| && Registers(arch, probes, next, symbol, c.value.0, probes[c.value.0 := c.value.1])
  {
    var cut := if |symbol| < 64 then symbol else symbol[..63];
    assert Stored(symbol) == cut && (symbol == "" <==> cut == "");
    var known, stored, free := FindSymbol(probes, symbol), FindSymbol(probes, cut), FindId(probes, 0);
    assert (exists k :: Names(probes, k, symbol)) <==> known < |probes| by {
      assert known < |probes| ==> Names(probes, known, symbol);
    }
    assert (exists k :: Names(probes, k, cut)) <==> stored < |probes| by {
      assert stored < |probes| ==> Names(probes, stored, cut);
    }
    if known < |probes| {
      assert probes[known := probes[known]] == probes;
    } else if arch.resolve(symbol).Some? && symbol != "" && stored < |probes| {
      assert probes[stored := probes[stored]] == probes;
    }
  }

  lemma ChosenFits(arch: Arch, probes: seq<Probe>, next: nat, symbol: string)
    requires UniqueIds(probes, next)
    ensures var c := Chosen(arch, probes, next, symbol);
            c.Some? ==>
              && c.value.0 < |probes| && c.value.1.id != 0
              && (probes[c.value.0].id != 0 ==> c.value.1 == probes[c.value.0])
              && (probes[c.value.0].id == 0 ==> c.value.1 == Fresh(next, c.value.1.symbol, c.value.1.target))
              && (FindSymbol(probes, symbol) < |probes| ==> c.value.0 == FindSymbol(probes, symbol) && probes[c.value.0].id != 0)
  {
  }

  // The name is not known in full, but cut to 63 characters it is that of entry i.
  ghost predicate Mistaken(arch: Arch, probes: seq<Probe>, next: nat, symbol: string) {
    var c := Chosen(arch, probes, next, symbol);
    c.Some? && FindSymbol(probes, symbol) == |probes| && c.value.0 < |probes| && probes[c.value.0].id != 0
  }

  lemma OnlyLongNamesAreMistaken(arch: Arch, probes: seq<Probe>, next: nat, symbol: string)
    requires Mistaken(arch, probes, next, symbol)
    ensures |symbol| >= SYMBOL_MAX
    ensures probes[Chosen(arch, probes, next, symbol).value.0].symbol == symbol[..SYMBOL_MAX - 1]
  {
  }

  /* When an install succeeds. */

  function FirstFree(used: seq<bool>): (s: nat)
    ensures s <= |used| && (s < |used| ==> !used[s]) && forall k | 0 <= k < s :: used[k]
  {
    if used == [] || !used[0] then 0 else 1 + FirstFree(used[1..])
  }

  lemma FirstFreeIs(used: seq<bool>, s: nat)
    requires s <= |used| && (s < |used| ==> !used[s]) && forall k | 0 <= k < s :: used[k]
    ensures FirstFree(used) == s
  {
  }

  // The slot and address the allocator has for a probe.
  function GrantedSlot(w: World, p: Probe): int {
    if SlotValid(p.slot) && w.base != 0 then p.slot else FirstFree(w.used)
  }

  function GrantedAddr(w: World, p: Probe, mmapAt: nat): nat {
    SlotAddr(if w.base != 0 then w.base else mmapAt, GrantedSlot(w, p))
  }

  ghost predicate Grantable(w: World, p: Probe, mmapAt: nat)
    requires |w.used| == SLOTS
  {
    if SlotValid(p.slot) && w.base != 0 then !w.used[p.slot] || p.tramp == SlotAddr(w.base, p.slot)
    else (w.base != 0 || mmapAt != 0) && FirstFree(w.used) < SLOTS
  }

  // The prologue can be read and measured.
  ghost predicate Readable(arch: Arch, target: nat, image: seq<Byte>) {
    && target + 32 <= |image|
    && arch.span(target).Some? && arch.span(target).value <= 32
  }

  // What it takes besides luck: a prologue that is readable, long enough and can be
  // relocated to the slot the probe has or will get, and a pool that is or can be mapped.
  ghost predicate Installable(arch: Arch, w: World, p: Probe, mmapAt: nat) {
    && Readable(arch, p.target, w.image) && arch.patchLen <= arch.span(p.target).value
    && (w.base != 0 || mmapAt != 0)
    && arch.build(p.id, p.target, w.image[p.target..p.target + arch.span(p.target).value], GrantedAddr(w, p, mmapAt)).Some?
  }

  // A prepared probe with a slot, whose trampoline can be built.
  ghost predicate Fillable(arch: Arch, p: Probe, image: seq<Byte>) {
    && p.tramp != 0 && p.stage == Prepared && |p.orig| >= arch.patchLen
    && p.target + arch.patchLen <= |image| && arch.build(p.id, p.target, p.orig, p.tramp).Some?
  }

  /** The pool never runs out of slots, as there are as many as probes: a probe is refused
      one exactly if the pool is not mapped and cannot be. */
  lemma CanBeGranted(arch: Arch, w: World, i: nat, mmapAt: nat)
    requires Consistent(arch, w) && i < PROBES && w.probes[i].id != 0
    ensures |w.used| == SLOTS
    ensures Grantable(w, w.probes[i], mmapAt) <==> w.base != 0 || mmapAt != 0
  {
    var p := w.probes[i];
    assert ProbeOk(arch, w, p);
    var f := seq(PROBES, k requires 0 <= k < PROBES => if Owns(w.probes[k]) then w.probes[k].slot else -1);
    var s := Pigeonhole.SlotLeft(f, i);
    forall k | 0 <= k < PROBES && k != i && Owns(w.probes[k]) ensures w.probes[k].slot != s {
      assert f[k] == w.probes[k].slot;
    }
    if !Owns(p) {
      assert !SlotOwned(w.probes, s);
      assert !w.used[s];
    }
  }

  // What a failed attempt may leave behind: at most one newly taken slot, and a rewritten
  // slot that no jump leads to.
  ghost predicate Undoable(w: World, w': World, i: nat) {
    && i < |w.probes| && i < |w'.probes|
    && |w.used| == |w'.used| == |w.code| == |w'.code| == SLOTS
    && var p, p' := w.probes[i], w'.probes[i];
    && (w'.base == w.base || AllFree(w.used))
    && (forall k | 0 <= k < |w.probes| && Live(w.probes[k]) && SlotValid(w.probes[k].slot) ::
          w'.code[w.probes[k].slot] == w.code[w.probes[k].slot])
    && if p'.tramp == 0 || p'.tramp == p.tramp then w'.used == w.used
       else SlotValid(p'.slot) && p'.tramp == SlotAddr(w'.base, p'.slot)
            && !w.used[p'.slot] && w'.used == w.used[p'.slot := true]
  }

  lemma NotLiveYet(arch: Arch, w: World, i: nat)
    requires Consistent(arch, w) && i < PROBES && w.probes[i].id != 0 && !Live(w.probes[i])
    ensures w.probes[i].stage == Resolved || w.probes[i].stage == Disabled
  {
    assert ProbeOk(arch, w, w.probes[i]);
  }

  lemma NothingTaken(arch: Arch, w: World, w': World, i: nat)
    requires Consistent(arch, w) && i < PROBES
    requires |w'.probes| == PROBES && w'.probes[i].tramp == w.probes[i].tramp
    requires w'.base == w.base && w'.used == w.used && w'.code == w.code
    ensures Undoable(w, w', i)
  {
  }

  // The allocator's answer for entry p, with `code` the slots right after it.
  ghost predicate Answer(w: World, p: Probe, w': World, p': Probe, ok: bool, code: seq<seq<Byte>>)
    requires |w.used| == |w.code| == SLOTS
  {
    && (w.base != 0 ==> w'.base == w.base && code == w.code)
    && (w.base == 0 ==> AllFree(w.used))
    && if !ok then p'.slot == p.slot && p'.tramp == p.tramp && w'.used == w.used
       else && SlotValid(p'.slot) && w'.base != 0 && p'.tramp == SlotAddr(w'.base, p'.slot)
            && w'.used == w.used[p'.slot := true]
            && (w.used[p'.slot] ==> p'.slot == p.slot && p'.tramp == p.tramp)
            && (SlotValid(p.slot) && w.base != 0 ==> p'.slot == p.slot)
  }

  // Either the attempt stopped before the allocator or the allocator answered.
  lemma Attempted(arch: Arch, w: World, w': World, i: nat, ok: bool, code: seq<seq<Byte>>)
    requires Consistent(arch, w) && i < PROBES && !Live(w.probes[i])
    requires |w'.probes| == PROBES && |w.used| == |w.code| == |code| == SLOTS && w'.code == code
    requires || Answer(w, w.probes[i], w', w'.probes[i], ok, code)
             || (!ok && w'.probes[i].tramp == w.probes[i].tramp && w'.base == w.base && w'.used == w.used && w'.code == w.code)
    ensures Undoable(w, w', i)
  {
    if Answer(w, w.probes[i], w', w'.probes[i], ok, code) {
      SlotTaken(arch, w, w', i, ok, code);
    } else {
      NothingTaken(arch, w, w', i);
    }
  }

  lemma Placed(w: World, p: Probe, w': World, p': Probe, code: seq<seq<Byte>>)
    requires |w.used| == |w.code| == SLOTS && Answer(w, p, w', p', true, code)
    ensures SlotValid(p'.slot) && p'.tramp == SlotAddr(w'.base, p'.slot) && p'.tramp != 0
  {
  }

  // The answer speaks of nothing that filling the slot changes.
  lemma SlotTakenStill(w: World, mid: World, w': World, i: nat, code: seq<seq<Byte>>)
    requires |w.used| == |w.code| == SLOTS && i < |w.probes| && i < |mid.probes| && i < |w'.probes|
    requires Answer(w, w.probes[i], mid, mid.probes[i], true, code)
    requires w'.base == mid.base && w'.used == mid.used
    requires w'.probes[i].slot == mid.probes[i].slot && w'.probes[i].tramp == mid.probes[i].tramp
    ensures Answer(w, w.probes[i], w', w'.probes[i], true, code)
  {
  }

  lemma SlotTaken(arch: Arch, w: World, w': World, i: nat, ok: bool, code: seq<seq<Byte>>)
    requires Consistent(arch, w) && i < PROBES && !Live(w.probes[i])
    requires |w'.probes| == PROBES && |w.used| == |w.code| == |code| == SLOTS
    requires Answer(w, w.probes[i], w', w'.probes[i], ok, code)
    requires w'.code == code || (ok && |w'.code| == SLOTS && w'.code == code[w'.probes[i].slot := w'.code[w'.probes[i].slot]])
    ensures Undoable(w, w', i)
    ensures ok ==> Allocated(w, w.probes[i], w', w'.probes[i].slot, w'.code[w'.probes[i].slot])
  {
    var p, p' := w.probes[i], w'.probes[i];
    assert ProbeOk(arch, w, p);
    SlotsOfOthers(arch, w, i);
    hide TableOk;
    hide ImageOk;
    if w.base == 0 {
      assert forall k | 0 <= k < PROBES :: !Owns(w.probes[k]);
    }
    if ok && w.used[p'.slot] {
      assert Owns(p);
    }
  }

  lemma Completed(arch: Arch, w: World, w': World, i: nat)
    requires Sane(arch) && Consistent(arch, w) && i < PROBES && w.probes[i].id != 0 && !Live(w.probes[i])
    requires |w'.probes| == PROBES && |w'.code| == SLOTS && w'.original == w.original
    requires var p, p' := w.probes[i], w'.probes[i];
             && w'.probes == w.probes[i := p']
             && SlotValid(p'.slot) && p'.tramp == SlotAddr(w'.base, p'.slot)
             && |w.used| == |w.code| == SLOTS && Allocated(w, p, w', p'.slot, w'.code[p'.slot])
             && arch.span(p.target).Some? && arch.patchLen <= arch.span(p.target).value <= ORIG_CODE_MAX
             && p.target + ORIG_CODE_MAX <= |w.image|
             && p' == p.(orig := w.image[p.target..p.target + arch.span(p.target).value], stage := Installed,
                         slot := p'.slot, tramp := p'.tramp, filter := p'.filter)
             && arch.build(p'.id, p'.target, p'.orig, p'.tramp) == Some(w'.code[p'.slot])
             && |arch.jump(p'.tramp)| == arch.patchLen
             && w'.image == Overwrite(w.image, p'.target, arch.jump(p'.tramp))
    ensures Consistent(arch, w')
  {
    var n := arch.span(w.probes[i].target).value;
    assert |w.image| == |w.original|;
    hide TableOk;
    hide ImageOk;
    hide Sane;
    PrologueIsOriginal(arch, w, i, n);
    InstallKeeps(arch, w, w', i);
  }

  // The entry found for a symbol is the one registered for it.
  lemma FoundAgain(arch: Arch, w: World, i: nat)
    requires Consistent(arch, w) && i < PROBES && w.probes[i].id != 0
    ensures FindSymbol(w.probes, w.probes[i].symbol) == i
  {
    assert ProbeOk(arch, w, w.probes[i]);
    assert forall k | 0 <= k < PROBES && k != i :: Distinct(arch, w.probes[k], w.probes[i]);
  }

  lemma EmptyEntry(arch: Arch, w: World, i: nat)
    requires Consistent(arch, w) && i < PROBES && w.probes[i].id == 0
    ensures w.probes[i] == NoProbe
  {
    assert ProbeOk(arch, w, w.probes[i]);
  }

  // The slot a probe that is not installed gives back is its own.
  lemma ReleasedRight(arch: Arch, w: World, i: nat)
    requires TableOk(arch, w) && i < PROBES && w.probes[i].id != 0
    ensures |w.used| == |w.code| == SLOTS
    ensures var p := w.probes[i];
            if Owns(p) then SlotValid(p.slot) && w.used[p.slot] && p.tramp == SlotAddr(w.base, p.slot) else !SlotValid(p.slot)
  {
    assert ProbeOk(arch, w, w.probes[i]);
  }

  lemma NobodyOwns(arch: Arch, w: World)
    requires TableOk(arch, w) && forall i | 0 <= i < PROBES :: w.probes[i].id == 0
    ensures AllFree(w.used)
  {
  }

  // Rolled back: everything as it was, but that a probe not known before is forgotten.
  ghost predicate Undone(w: World, w': World, i: nat, existed: bool) {
    && i < |w.probes| && w'.original == w.original && w'.image == w.image && w'.used == w.used
    && w'.probes == w.probes[i := if existed then w.probes[i] else NoProbe]
  }

  /** Rolling back a failed attempt restores text, slots and the table; the invariant is
      back exactly unless a probe that owned a slot was forgotten. */
  lemma RolledBack(arch: Arch, w: World, mid: World, w': World, i: nat, existed: bool)
    requires Consistent(arch, w) && i < PROBES && w.probes[i].id != 0 && !Live(w.probes[i]) && Undoable(w, mid, i)
    requires w'.original == w.original && w'.image == w.image && w'.code == mid.code
    requires w'.probes == w.probes[i := if existed then w.probes[i] else NoProbe]
    requires var p := mid.probes[i];
             if p.tramp == 0 || p.tramp == w.probes[i].tramp
             then w'.used == mid.used && w'.base == mid.base
             else SlotValid(p.slot) && p.tramp == SlotAddr(mid.base, p.slot) ==>
                    w'.used == mid.used[p.slot := false] && (w'.base == mid.base || AllFree(w'.used))
    ensures Undone(w, w', i, existed)
    ensures Consistent(arch, w') <==> existed || !Owns(w.probes[i])
  {
    assert w'.used == w.used;
    UnownedPartsMayChange(arch, w, w'.base, w'.code);
    hide Consistent;
    var restored := w.(base := w'.base, code := w'.code);
    if existed {
      assert w'.probes == w.probes;
      assert w' == restored;
    } else if !Owns(w.probes[i]) {
      RemoveKeeps(arch, restored, w', i);
    } else {
      assert w' == restored.(probes := restored.probes[i := NoProbe]);
      ForgottenSlotLeaks(arch, restored, i);
    }
  }

  // An entry dropped while it owns a slot leaves the slot in use without an owner.
  lemma ForgottenSlotLeaks(arch: Arch, w: World, i: nat)
    requires Consistent(arch, w) && i < PROBES && Owns(w.probes[i])
    ensures !Consistent(arch, w.(probes := w.probes[i := NoProbe]))
  {
    var p, w' := w.probes[i], w.(probes := w.probes[i := NoProbe]);
    assert ProbeOk(arch, w, p);
    SlotsOfOthers(arch, w, i);
    assert !SlotOwned(w'.probes, p.slot);
  }

  // Registering and undoing an install together.
  lemma UndoneAll(w0: World, w: World, w': World, i: nat, existed: bool)
    requires i < |w0.probes| == |w.probes| && w == w0.(probes := w0.probes[i := w.probes[i]])
    requires Undone(w, w', i, existed) && (existed ==> w.probes[i] == w0.probes[i])
    ensures w'.image == w0.image && w'.used == w0.used
    ensures w'.probes == w0.probes[i := if existed then w0.probes[i] else NoProbe]
    ensures w0.probes[i] == NoProbe || existed ==> w'.probes == w0.probes
  {
  }

  lemma InstallableNeeds(arch: Arch, w: World, p: Probe, mmapAt: nat)
    ensures Installable(arch, w, p, mmapAt) ==> Readable(arch, p.target, w.image) && (w.base != 0 || mmapAt != 0)
  {
  }

  // Registering does not touch what being installable depends on.
  lemma InstallableStill(arch: Arch, w: World, w': World, p: Probe, mmapAt: nat)
    requires w'.image == w.image && w'.base == w.base && w'.used == w.used
    ensures Installable(arch, w, p, mmapAt) <==> Installable(arch, w', p, mmapAt)
  {
  }

  // Once prologue and slot are there, only length and relocation are left to decide.
  lemma FillableIff(arch: Arch, w: World, p: Probe, p': Probe, mmapAt: nat)
    requires Readable(arch, p.target, w.image) && (w.base != 0 || mmapAt != 0)
    requires p'.id == p.id && p'.target == p.target && p'.tramp != 0 && p'.stage == Prepared
    requires p'.tramp == GrantedAddr(w, p, mmapAt)
    requires p'.orig == w.image[p.target..p.target + arch.span(p.target).value]
    ensures Fillable(arch, p', w.image) <==> Installable(arch, w, p, mmapAt)
  {
  }

  // A new entry's patch does not overlap those of the others.
  ghost predicate MayRegister(arch: Arch, probes: seq<Probe>, next: nat, symbol: string) {
    var c := Chosen(arch, probes, next, symbol);
    c.Some? && c.value.0 < |probes| && probes[c.value.0].id == 0 ==> Roomy(arch, probes, c.value.1.target)
  }

  lemma KnownIsChosen(arch: Arch, probes: seq<Probe>, next: nat, i: nat)
    requires i < |probes| && probes[i].id != 0 && FindSymbol(probes, probes[i].symbol) == i
    ensures Chosen(arch, probes, next, probes[i].symbol) == Some((i, probes[i]))
    ensures MayRegister(arch, probes, next, probes[i].symbol) && !Mistaken(arch, probes, next, probes[i].symbol)
  {
  }

  // The allocator looks only at the pool and at the slot and address a probe has.
  lemma SameGrant(w: World, p: Probe, mid: World, q: Probe, w': World, p': Probe, ok: bool, code: seq<seq<Byte>>, mmapAt: nat)
    requires |w.used| == |w.code| == SLOTS && mid.used == w.used && mid.code == w.code && mid.base == w.base
    requires q.slot == p.slot && q.tramp == p.tramp
    ensures Grantable(w, p, mmapAt) <==> Grantable(mid, q, mmapAt)
    ensures GrantedAddr(w, p, mmapAt) == GrantedAddr(mid, q, mmapAt)
    ensures Answer(mid, q, w', p', ok, code) <==> Answer(w, p, w', p', ok, code)
  {
  }
}

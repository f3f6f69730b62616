/** Installing, disabling, enabling and removing probes: what the target's code looks like
    and who owns which trampoline slot after any sequence of these operations. */
module ProbeLifecycle {
  import opened ByteString
  import opened Options
  import opened TrampolinePool

  const PROBES: nat := 32
  const ORIG_CODE_MAX: nat := 32
  const SYMBOL_MAX: nat := 64

  datatype Stage = Empty | Resolved | Prepared | Installed | Disabled

  datatype Probe = Probe(id: nat, symbol: string, target: nat, tramp: nat, slot: int,
                         orig: seq<Byte>, stage: Stage, filter: nat)

  // An unused entry is all zero.
  const NoProbe: Probe := Probe(0, "", 0, 0, 0, [], Empty, 0)

  // What the architecture and the symbol tables contribute: the length and bytes of a jump
  // patch, how many bytes of whole instructions a patch at an address overwrites, the
  // trampoline for a probe id, target, prologue and trampoline address, symbol addresses.
  datatype Arch = Arch(
    patchLen: nat,
    jump: nat -> seq<Byte>,
    span: nat -> Option<nat>,
    build: (nat, nat, seq<Byte>, nat) -> Option<seq<Byte>>,
    resolve: string -> Option<nat>)

  // The target's text before tracing and now, the probe table and the pool.
  datatype World = World(original: seq<Byte>, image: seq<Byte>, probes: seq<Probe>,
                         base: nat, used: seq<bool>, code: seq<seq<Byte>>)

  // Jumps have the patch length, and trampolines fit their slots.
  ghost predicate Sane(arch: Arch) {
    && arch.patchLen > 0 && (forall a: nat :: |arch.jump(a)| == arch.patchLen)
    && forall id: nat, target: nat, orig, at: nat :: Fitting(arch.build(id, target, orig, at))
  }

  ghost predicate Fitting(code: Option<seq<Byte>>) {
    code.Some? ==> |code.value| <= SLOT_SIZE
  }

  // The bytes patches at these two addresses overwrite do not overlap.
  ghost predicate Apart(arch: Arch, a: nat, b: nat) {
    arch.span(a).Some? && arch.span(b).Some? ==>
      a + arch.span(a).value <= b || b + arch.span(b).value <= a
  }

  predicate Owns(p: Probe) {
    p.id != 0 && p.stage != Resolved
  }

  predicate Live(p: Probe) {
    p.id != 0 && p.stage == Installed
  }

  // x is one of the bytes the jump of p overwrites.
  predicate Patches(arch: Arch, p: Probe, x: int) {
    Live(p) && p.target <= x < p.target + arch.patchLen
  }

  ghost predicate Registered(p: Probe) {
    p.id != 0 ==>
      && (p.stage == Resolved || p.stage == Installed || p.stage == Disabled)
      && (p.stage == Resolved ==> p.slot == -1 && p.tramp == 0)
  }

  // The saved prologue is the original one.
  ghost predicate SavedPrologue(arch: Arch, original: seq<Byte>, p: Probe) {
    && arch.span(p.target) == Some(|p.orig|)
    && arch.patchLen <= |p.orig| <= ORIG_CODE_MAX
    && p.target + |p.orig| <= |original|
    && p.orig == original[p.target..p.target + |p.orig|]
  }

  ghost predicate HoldsSlot(w: World, p: Probe)
    requires |w.used| == SLOTS
  {
    SlotValid(p.slot) && w.base != 0 && p.tramp == SlotAddr(w.base, p.slot) && w.used[p.slot]
  }

  ghost predicate TrampolineWritten(arch: Arch, w: World, p: Probe)
    requires |w.code| == SLOTS
  {
    SlotValid(p.slot) && arch.build(p.id, p.target, p.orig, p.tramp) == Some(w.code[p.slot])
  }

  ghost predicate ProbeOk(arch: Arch, w: World, p: Probe)
    requires |w.used| == SLOTS && |w.code| == SLOTS
  {
    && (p.id == 0 ==> p == NoProbe)
    && Registered(p)
    && (Owns(p) ==> SavedPrologue(arch, w.original, p) && HoldsSlot(w, p))
    && (Live(p) ==> TrampolineWritten(arch, w, p))
  }

  ghost predicate Patched(arch: Arch, probes: seq<Probe>, x: int) {
    exists i :: 0 <= i < |probes| && Patches(arch, probes[i], x)
  }

  // The byte of p's jump that lies at x.
  function JumpByte(arch: Arch, p: Probe, x: int): Byte {
    var jump := arch.jump(p.tramp);
    if 0 <= x - p.target < |jump| then jump[x - p.target] else 0
  }

  // One byte of the text: part of an installed jump, or as it was.
  ghost predicate ByteOk(arch: Arch, was: Byte, now: Byte, probes: seq<Probe>, x: int) {
    && (forall i | 0 <= i < |probes| && Patches(arch, probes[i], x) :: now == JumpByte(arch, probes[i], x))
    && (!Patched(arch, probes, x) ==> now == was)
  }

  // Every byte of the text is what the installed probes make of it.
  ghost predicate ImageOk(arch: Arch, original: seq<Byte>, image: seq<Byte>, probes: seq<Probe>) {
    |image| == |original| && forall x | 0 <= x < |image| :: ByteOk(arch, original[x], image[x], probes, x)
  }

  ghost predicate SlotOwned(probes: seq<Probe>, s: int) {
    exists i :: 0 <= i < |probes| && Owns(probes[i]) && probes[i].slot == s
  }

  // No two probes share an id, a stored symbol, a slot or bytes to patch.
  ghost predicate Distinct(arch: Arch, p: Probe, q: Probe) {
    p.id != 0 && q.id != 0 ==>
      && p.id != q.id && p.symbol != q.symbol && (Owns(p) && Owns(q) ==> p.slot != q.slot)
      && Apart(arch, p.target, q.target)
  }

  ghost predicate TableOk(arch: Arch, w: World) {
    && |w.probes| == PROBES && |w.used| == SLOTS && |w.code| == SLOTS
    && (forall i | 0 <= i < PROBES :: ProbeOk(arch, w, w.probes[i]))
    && (forall i, k | 0 <= i < PROBES && 0 <= k < PROBES && i != k :: Distinct(arch, w.probes[i], w.probes[k]))
    && (forall s | 0 <= s < SLOTS && w.used[s] :: SlotOwned(w.probes, s))
  }

  /** What every operation keeps. */
  ghost predicate Consistent(arch: Arch, w: World) {
    TableOk(arch, w) && ImageOk(arch, w.original, w.image, w.probes)
  }

  /* Consequences of the invariant. */

  lemma Disjoint(arch: Arch, w: World, i: nat, k: nat)
    requires Sane(arch) && TableOk(arch, w) && i < PROBES && k < PROBES && i != k
    requires w.probes[i].id != 0 && Owns(w.probes[k])
    ensures var p, q := w.probes[i], w.probes[k];
            arch.span(p.target).Some? ==>
              p.target + arch.span(p.target).value <= q.target || q.target + |q.orig| <= p.target
  {
    var p, q := w.probes[i], w.probes[k];
    assert ProbeOk(arch, w, p) && ProbeOk(arch, w, q);
    assert Distinct(arch, p, q);
  }

  // No other probe's jump reaches into the prologue of probe i.
  lemma NobodyElsePatches(arch: Arch, w: World, i: nat, n: nat, x: int)
    requires Sane(arch) && TableOk(arch, w) && i < PROBES && w.probes[i].id != 0
    requires arch.span(w.probes[i].target) == Some(n) && w.probes[i].target <= x < w.probes[i].target + n
    ensures forall k | 0 <= k < PROBES && k != i :: !Patches(arch, w.probes[k], x)
  {
    forall k | 0 <= k < PROBES && k != i ensures !Patches(arch, w.probes[k], x) {
      if Live(w.probes[k]) {
        Disjoint(arch, w, i, k);
        assert ProbeOk(arch, w, w.probes[k]);
      }
    }
  }

  // Where a probe that is not installed would be patched, the text is original.
  lemma PrologueIsOriginal(arch: Arch, w: World, i: nat, n: nat)
    requires Sane(arch) && Consistent(arch, w) && i < PROBES && w.probes[i].id != 0 && !Live(w.probes[i])
    requires arch.span(w.probes[i].target) == Some(n) && w.probes[i].target + n <= |w.original|
    ensures |w.image| == |w.original|
    ensures var a := w.probes[i].target; w.image[a..a + n] == w.original[a..a + n]
  {
    var a := w.probes[i].target;
    hide TableOk;
    TableLength(arch, w);
    forall x | a <= x < a + n ensures w.image[x] == w.original[x] {
      assert ByteOk(arch, w.original[x], w.image[x], w.probes, x);
      NobodyElsePatches(arch, w, i, n, x);
    }
  }

  lemma TableLength(arch: Arch, w: World)
    requires TableOk(arch, w)
    ensures |w.probes| == PROBES && |w.used| == |w.code| == SLOTS
  {
  }

  /* One entry of the table changes. The rest follows from what the change does to the
     other probes, the slots and the text. */

  // A probe other than the changed one keeps its slot and trampoline.
  ghost predicate Untouched(w: World, w': World, p: Probe) {
    Owns(p) ==> w'.base == w.base && SlotValid(p.slot) && |w.used| == |w'.used| == |w.code| == |w'.code| == SLOTS
                && w'.used[p.slot] && w'.code[p.slot] == w.code[p.slot]
  }

  lemma OtherProbeOk(arch: Arch, w: World, w': World, p: Probe)
    requires |w.used| == |w'.used| == SLOTS && |w.code| == |w'.code| == SLOTS && w'.original == w.original
    requires ProbeOk(arch, w, p) && Untouched(w, w', p)
    ensures ProbeOk(arch, w', p)
  {
  }

  // The slots that stay owned when entry i changes.
  lemma StillOwned(probes: seq<Probe>, i: nat, p: Probe, s: int)
    requires i < |probes| && SlotOwned(probes, s)
    requires Owns(probes[i]) && probes[i].slot == s ==> Owns(p) && p.slot == s
    ensures SlotOwned(probes[i := p], s)
  {
    var k :| 0 <= k < |probes| && Owns(probes[k]) && probes[k].slot == s;
    assert probes[i := p][k] == if k == i then p else probes[k];
  }

  // Entry i fits in among the others, and its old slot is either kept or free.
  ghost predicate Fits(arch: Arch, w: World, w': World, i: nat)
    requires i < |w.probes| && |w.used| == |w'.used| == |w'.code| == SLOTS
  {
    && w'.original == w.original && i < |w'.probes|
    && w'.probes == w.probes[i := w'.probes[i]]
    && ProbeOk(arch, w', w'.probes[i])
    && (forall k | 0 <= k < |w.probes| && k != i :: Distinct(arch, w'.probes[i], w.probes[k]) && Untouched(w, w', w.probes[k]))
    && (forall s | 0 <= s < SLOTS && w'.used[s] :: SlotKept(w, w', i, s))
  }

  ghost predicate SlotKept(w: World, w': World, i: nat, s: nat)
    requires i < |w.probes| && i < |w'.probes| && s < |w.used|
  {
    var p, p' := w.probes[i], w'.probes[i];
    (Owns(p') && p'.slot == s) || (w.used[s] && !(Owns(p) && p.slot == s))
  }

  lemma TableOkAfter(arch: Arch, w: World, w': World, i: nat)
    requires TableOk(arch, w) && i < PROBES && |w'.used| == |w'.code| == SLOTS && Fits(arch, w, w', i)
    ensures TableOk(arch, w')
  {
    hide ProbeOk;
    hide Distinct;
    var p' := w'.probes[i];
    forall k | 0 <= k < PROBES ensures ProbeOk(arch, w', w'.probes[k]) {
      if k != i {
        OtherProbeOk(arch, w, w', w.probes[k]);
      }
    }
    forall k, m | 0 <= k < PROBES && 0 <= m < PROBES && k != m ensures Distinct(arch, w'.probes[k], w'.probes[m]) {
      if m == i {
        DistinctSymmetric(arch, w'.probes[i], w.probes[k]);
      }
    }
    forall s | 0 <= s < SLOTS && w'.used[s] ensures SlotOwned(w'.probes, s) {
      assert SlotKept(w, w', i, s);
      if Owns(p') && p'.slot == s {
        assert w'.probes[i] == p';
      } else {
        StillOwned(w.probes, i, p', s);
      }
    }
  }

  lemma DistinctSymmetric(arch: Arch, p: Probe, q: Probe)
    requires Distinct(arch, p, q)
    ensures Distinct(arch, q, p)
  {
  }

  /** Nothing the tracer knows changes; an unused pool and slots without a live jump may. */
  lemma UnownedPartsMayChange(arch: Arch, w: World, base: nat, code: seq<seq<Byte>>)
    requires Consistent(arch, w) && |code| == SLOTS
    requires base == w.base || AllFree(w.used)
    requires forall k | 0 <= k < PROBES && Live(w.probes[k]) && SlotValid(w.probes[k].slot) ::
               code[w.probes[k].slot] == w.code[w.probes[k].slot]
    ensures Consistent(arch, w.(base := base, code := code))
  {
    var w' := w.(base := base, code := code);
    hide Distinct;
    assert TableOk(arch, w') by {
      forall k | 0 <= k < PROBES ensures ProbeOk(arch, w', w'.probes[k]) {
        assert ProbeOk(arch, w, w.probes[k]);
      }
    }
  }

  lemma FilterMayChange(arch: Arch, w: World, i: nat, filter: nat)
    requires Consistent(arch, w) && i < PROBES && w.probes[i].id != 0
    ensures Consistent(arch, w.(probes := w.probes[i := w.probes[i].(filter := filter)]))
  {
    var p' := w.probes[i].(filter := filter);
    var w' := w.(probes := w.probes[i := p']);
    assert Fits(arch, w, w', i) by {
      assert ProbeOk(arch, w, w.probes[i]);
      SlotsOfOthers(arch, w, i);
      forall s: nat | s < SLOTS && w'.used[s] ensures SlotKept(w, w', i, s) {
      }
    }
    TableOkAfter(arch, w, w', i);
    SamePatches(arch, w, i, p');
  }

  // The slots of the other probes are in use and differ from probe i's.
  lemma SlotsOfOthers(arch: Arch, w: World, i: nat)
    requires TableOk(arch, w) && i < PROBES
    ensures forall k | 0 <= k < PROBES && k != i :: Distinct(arch, w.probes[i], w.probes[k])
    ensures forall k | 0 <= k < PROBES && Owns(w.probes[k]) ::
              SlotValid(w.probes[k].slot) && w.used[w.probes[k].slot] && w.base != 0
              && (k != i && Owns(w.probes[i]) ==> w.probes[k].slot != w.probes[i].slot)
  {
    forall k | 0 <= k < PROBES ensures ProbeOk(arch, w, w.probes[k]) && (k != i ==> Distinct(arch, w.probes[i], w.probes[k])) {
    }
  }

  // The text stays right when the changed entry patches the same bytes with the same jump.
  lemma SamePatches(arch: Arch, w: World, i: nat, p: Probe)
    requires ImageOk(arch, w.original, w.image, w.probes) && i < |w.probes|
    requires Live(p) == Live(w.probes[i])
    requires Live(p) ==> p.target == w.probes[i].target && p.tramp == w.probes[i].tramp
    ensures ImageOk(arch, w.original, w.image, w.probes[i := p])
  {
    forall x | 0 <= x < |w.image| ensures ByteOk(arch, w.original[x], w.image[x], w.probes[i := p], x) {
      assert ByteOk(arch, w.original[x], w.image[x], w.probes, x);
      SamePatchesAt(arch, w.original[x], w.image[x], w.probes, i, p, x);
    }
  }

  lemma SamePatchesAt(arch: Arch, was: Byte, now: Byte, probes: seq<Probe>, i: nat, p: Probe, x: int)
    requires ByteOk(arch, was, now, probes, x) && i < |probes|
    requires Patches(arch, p, x) == Patches(arch, probes[i], x)
    requires Patches(arch, p, x) ==> JumpByte(arch, p, x) == JumpByte(arch, probes[i], x)
    ensures ByteOk(arch, was, now, probes[i := p], x)
  {
    var after := probes[i := p];
    if Patched(arch, probes, x) {
      var k :| 0 <= k < |probes| && Patches(arch, probes[k], x);
      assert Patches(arch, after[k], x);
    }
  }

  // Writing the jump of a newly installed probe.
  lemma JumpWritten(arch: Arch, w: World, i: nat, p: Probe)
    requires Sane(arch) && Consistent(arch, w) && i < PROBES && w.probes[i].id == p.id && p.id != 0
    requires !Live(w.probes[i]) && p.stage == Installed
    requires p.target == w.probes[i].target && SavedPrologue(arch, w.original, p)
    ensures p.target + arch.patchLen <= |w.image|
    ensures ImageOk(arch, w.original, Overwrite(w.image, p.target, arch.jump(p.tramp)), w.probes[i := p])
  {
    hide TableOk;
    TableLength(arch, w);
    var image := Overwrite(w.image, p.target, arch.jump(p.tramp));
    var after := w.probes[i := p];
    forall x | 0 <= x < |image| ensures ByteOk(arch, w.original[x], image[x], after, x) {
      assert ByteOk(arch, w.original[x], w.image[x], w.probes, x);
      if p.target <= x < p.target + arch.patchLen {
        NobodyElsePatches(arch, w, i, |p.orig|, x);
        assert Patches(arch, after[i], x);
      } else {
        SamePatchesAt(arch, w.original[x], w.image[x], w.probes, i, p, x);
      }
    }
  }

  // Writing back the saved prologue.
  lemma PrologueRestored(arch: Arch, w: World, i: nat)
    requires Sane(arch) && Consistent(arch, w) && i < PROBES && Live(w.probes[i])
    ensures var p := w.probes[i];
            && p.target + |p.orig| <= |w.image|
            && ImageOk(arch, w.original, Overwrite(w.image, p.target, p.orig), w.probes[i := p.(stage := Disabled)])
  {
    var p := w.probes[i];
    assert ProbeOk(arch, w, p);
    hide TableOk;
    TableLength(arch, w);
    var image := Overwrite(w.image, p.target, p.orig);
    var p' := p.(stage := Disabled);
    var after := w.probes[i := p'];
    forall x | 0 <= x < |image| ensures ByteOk(arch, w.original[x], image[x], after, x) {
      assert ByteOk(arch, w.original[x], w.image[x], w.probes, x);
      if p.target <= x < p.target + |p.orig| {
        NobodyElsePatches(arch, w, i, |p.orig|, x);
        assert image[x] == w.original[x];
      } else {
        SamePatchesAt(arch, w.original[x], w.image[x], w.probes, i, p', x);
      }
    }
  }

  // The pool after a successful allocation for the old entry p, and the trampoline in it.
  ghost predicate Allocated(w: World, p: Probe, w': World, slot: int, bytes: seq<Byte>)
    requires |w.used| == |w.code| == SLOTS
  {
    && SlotValid(slot) && w'.base != 0
    && (w.base != 0 ==> w'.base == w.base)
    && (w.base == 0 ==> AllFree(w.used))
    && w'.used == w.used[slot := true]
    && |w'.code| == SLOTS && w'.code[slot] == bytes
    && (w.base != 0 ==> w'.code == w.code[slot := bytes])
    && (w.used[slot] ==> Owns(p) && p.slot == slot)
    && (Owns(p) ==> p.slot == slot)
  }

  /** A completed install keeps the invariant. */
  lemma InstallKeeps(arch: Arch, w: World, w': World, i: nat)
    requires Sane(arch) && Consistent(arch, w) && i < PROBES && w.probes[i].id != 0 && !Live(w.probes[i])
    requires |w'.probes| == PROBES && w'.original == w.original
    requires var p, p' := w.probes[i], w'.probes[i];
             && w'.probes == w.probes[i := p']
             && p' == p.(orig := p'.orig, stage := Installed, slot := p'.slot, tramp := p'.tramp, filter := p'.filter)
             && SavedPrologue(arch, w.original, p') && |w.image| == |w.original|
             && Allocated(w, p, w', p'.slot, if SlotValid(p'.slot) && |w'.code| == SLOTS then w'.code[p'.slot] else [])
             && p'.tramp == SlotAddr(w'.base, p'.slot)
             && arch.build(p'.id, p'.target, p'.orig, p'.tramp) == Some(w'.code[p'.slot])
             && |arch.jump(p'.tramp)| == arch.patchLen
             && w'.image == Overwrite(w.image, p'.target, arch.jump(p'.tramp))
    ensures Consistent(arch, w')
  {
    var p, p' := w.probes[i], w'.probes[i];
    JumpWritten(arch, w, i, p');
    InstallFits(arch, w, w', i);
    TableOkAfter(arch, w, w', i);
  }

  lemma InstallFits(arch: Arch, w: World, w': World, i: nat)
    requires TableOk(arch, w) && i < PROBES && w.probes[i].id != 0 && !Live(w.probes[i])
    requires |w'.probes| == PROBES && w'.original == w.original
    requires var p, p' := w.probes[i], w'.probes[i];
             && w'.probes == w.probes[i := p']
             && p' == p.(orig := p'.orig, stage := Installed, slot := p'.slot, tramp := p'.tramp, filter := p'.filter)
             && SavedPrologue(arch, w.original, p')
             && Allocated(w, p, w', p'.slot, if SlotValid(p'.slot) && |w'.code| == SLOTS then w'.code[p'.slot] else [])
             && p'.tramp == SlotAddr(w'.base, p'.slot)
             && arch.build(p'.id, p'.target, p'.orig, p'.tramp) == Some(w'.code[p'.slot])
    ensures Fits(arch, w, w', i)
  {
    var p, p' := w.probes[i], w'.probes[i];
    assert ProbeOk(arch, w, p);
    SlotsOfOthers(arch, w, i);
    hide TableOk;
    hide SavedPrologue;
    assert ProbeOk(arch, w', p');
    forall k | 0 <= k < PROBES && k != i ensures Distinct(arch, p', w.probes[k]) && Untouched(w, w', w.probes[k]) {
    }
    forall s: nat | s < SLOTS && w'.used[s] ensures SlotKept(w, w', i, s) {
    }
  }

  /** Restoring a prologue keeps the invariant. */
  lemma UninstallKeeps(arch: Arch, w: World, i: nat)
    requires Sane(arch) && Consistent(arch, w) && i < PROBES && Live(w.probes[i])
    ensures var p := w.probes[i];
            && SavedPrologue(arch, w.original, p) && p.orig != [] && p.target + |p.orig| <= |w.image|
            && Consistent(arch, w.(probes := w.probes[i := p.(stage := Disabled)], image := Overwrite(w.image, p.target, p.orig)))
  {
    var p := w.probes[i];
    PrologueRestored(arch, w, i);
    var w' := w.(probes := w.probes[i := p.(stage := Disabled)], image := Overwrite(w.image, p.target, p.orig));
    assert ProbeOk(arch, w, p);
    DisableTable(arch, w, w', i);
  }

  // The table does not depend on the text.
  lemma DisableTable(arch: Arch, w: World, w': World, i: nat)
    requires TableOk(arch, w) && i < PROBES && Live(w.probes[i])
    requires w' == w.(probes := w.probes[i := w.probes[i].(stage := Disabled)], image := w'.image)
    ensures TableOk(arch, w')
  {
    assert ProbeOk(arch, w, w.probes[i]);
    SlotsOfOthers(arch, w, i);
    assert Fits(arch, w, w', i) by {
      hide TableOk;
      forall s: nat | s < SLOTS && w'.used[s] ensures SlotKept(w, w', i, s) {
      }
    }
    TableOkAfter(arch, w, w', i);
  }

  // Probe i forgotten and its slot, if it owns one, given back.
  ghost predicate Forgotten(w: World, w': World, i: nat)
    requires i < |w.probes| && |w.used| == SLOTS
  {
    && w'.original == w.original && w'.image == w.image && w'.code == w.code
    && w'.probes == w.probes[i := NoProbe]
    && w'.used == (if Owns(w.probes[i]) && SlotValid(w.probes[i].slot) then w.used[w.probes[i].slot := false] else w.used)
    && (w'.base == w.base || AllFree(w'.used))
  }

  lemma RemoveTable(arch: Arch, w: World, w': World, i: nat)
    requires TableOk(arch, w) && i < PROBES && w.probes[i].id != 0 && Forgotten(w, w', i)
    ensures TableOk(arch, w')
  {
    assert ProbeOk(arch, w, w.probes[i]);
    SlotsOfOthers(arch, w, i);
    assert Fits(arch, w, w', i) by {
      hide TableOk;
      forall k | 0 <= k < PROBES && k != i ensures Distinct(arch, NoProbe, w.probes[k]) && Untouched(w, w', w.probes[k]) {
        var q := w.probes[k];
        assert Owns(q) ==> w'.used[q.slot];
      }
      forall s: nat | s < SLOTS && w'.used[s] ensures SlotKept(w, w', i, s) {
      }
    }
    TableOkAfter(arch, w, w', i);
  }

  /** Giving back the slot of a probe that is not installed and forgetting the probe keeps
      the invariant. */
  lemma RemoveKeeps(arch: Arch, w: World, w': World, i: nat)
    requires Consistent(arch, w) && i < PROBES && w.probes[i].id != 0 && !Live(w.probes[i]) && Forgotten(w, w', i)
    ensures Consistent(arch, w')
  {
    RemoveTable(arch, w, w', i);
    SamePatches(arch, w, i, NoProbe);
  }

  // A patch at this address would overlap no registered probe's.
  ghost predicate Roomy(arch: Arch, probes: seq<Probe>, target: nat) {
    forall k | 0 <= k < |probes| && probes[k].id != 0 :: Apart(arch, target, probes[k].target)
  }

  /** Registering a new symbol keeps the invariant. */
  lemma RegisterKeeps(arch: Arch, w: World, i: nat, p: Probe)
    requires Consistent(arch, w) && i < PROBES && w.probes[i].id == 0
    requires p == Probe(p.id, p.symbol, p.target, 0, -1, [], Resolved, 0) && p.id != 0
    requires forall k | 0 <= k < PROBES :: w.probes[k].id != p.id && (w.probes[k].id != 0 ==> w.probes[k].symbol != p.symbol)
    requires Roomy(arch, w.probes, p.target)
    ensures Consistent(arch, w.(probes := w.probes[i := p]))
  {
    var w' := w.(probes := w.probes[i := p]);
    assert ProbeOk(arch, w, w.probes[i]);
    SlotsOfOthers(arch, w, i);
    assert Fits(arch, w, w', i) by {
      hide TableOk;
      forall s: nat | s < SLOTS && w'.used[s] ensures SlotKept(w, w', i, s) {
      }
    }
    TableOkAfter(arch, w, w', i);
    SamePatches(arch, w, i, p);
  }

  /** With nothing installed the text is the original one. */
  lemma NothingInstalled(arch: Arch, w: World)
    requires Consistent(arch, w) && forall i | 0 <= i < PROBES :: !Live(w.probes[i])
    ensures w.image == w.original
  {
    forall x | 0 <= x < |w.image| ensures w.image[x] == w.original[x] {
      assert ByteOk(arch, w.original[x], w.image[x], w.probes, x);
    }
  }

  /** Every installed jump leads to the trampoline of its own probe, in a slot of the
      mapped pool that no other probe owns. */
  lemma JumpsLeadHome(arch: Arch, w: World, i: nat)
    requires Sane(arch) && Consistent(arch, w) && i < PROBES && Live(w.probes[i])
    ensures var p := w.probes[i];
            && p.target + arch.patchLen <= |w.image|
            && w.image[p.target..p.target + arch.patchLen] == arch.jump(p.tramp)
            && w.base != 0 && SlotValid(p.slot) && w.used[p.slot] && p.tramp == w.base + p.slot * SLOT_SIZE
            && arch.build(p.id, p.target, p.orig, p.tramp) == Some(w.code[p.slot])
            && p.orig == w.original[p.target..p.target + |p.orig|]
            && forall k | 0 <= k < PROBES && k != i && Owns(w.probes[k]) :: w.probes[k].slot != p.slot
  {
    var p := w.probes[i];
    assert ProbeOk(arch, w, p);
    SlotsOfOthers(arch, w, i);
    forall x | p.target <= x < p.target + arch.patchLen ensures w.image[x] == arch.jump(p.tramp)[x - p.target] {
      assert ByteOk(arch, w.original[x], w.image[x], w.probes, x);
      assert Patches(arch, p, x);
    }
  }

  /** The used slots are exactly the owned ones, and the pool is mapped while there is one. */
  lemma UsedIsOwned(arch: Arch, w: World, s: nat)
    requires Consistent(arch, w) && s < SLOTS
    ensures w.used[s] <==> SlotOwned(w.probes, s)
    ensures w.used[s] ==> w.base != 0
  {
    if SlotOwned(w.probes, s) {
      var k :| 0 <= k < |w.probes| && Owns(w.probes[k]) && w.probes[k].slot == s;
      assert ProbeOk(arch, w, w.probes[k]);
    }
  }

  /** Forgetting an installed probe breaks the invariant exactly if its jump changed the
      text it covers: that is what stopping does after a failed uninstall. */
  lemma ForgottenJumpDangles(arch: Arch, w: World, i: nat)
    requires Sane(arch) && Consistent(arch, w) && i < PROBES && Live(w.probes[i])
    ensures var p := w.probes[i];
            ImageOk(arch, w.original, w.image, w.probes[i := NoProbe]) <==>
              p.target + arch.patchLen <= |w.original| && w.original[p.target..p.target + arch.patchLen] == arch.jump(p.tramp)
  {
    hide ByteOk;
    hide TableOk;
    hide Sane;
    hide Live;
    TableLength(arch, w);
    var p, after := w.probes[i], w.probes[i := NoProbe];
    JumpsLeadHome(arch, w, i);
    var a, n := p.target, arch.patchLen;
    SlicesAgree(w.original, w.image, a, n);
    forall x | 0 <= x < |w.image|
      ensures ByteOk(arch, w.original[x], w.image[x], after, x) <==> (a <= x < a + n ==> w.image[x] == w.original[x])
    {
      ForgottenByte(arch, w, i, x);
    }
  }

  lemma SlicesAgree(s: seq<Byte>, t: seq<Byte>, a: nat, n: nat)
    requires a + n <= |s| && |s| == |t|
    ensures s[a..a + n] == t[a..a + n] <==> forall x | 0 <= x < |t| :: a <= x < a + n ==> t[x] == s[x]
  {
    assert forall x | a <= x < a + n :: s[a..a + n][x - a] == s[x] && t[a..a + n][x - a] == t[x];
  }

  lemma ForgottenByte(arch: Arch, w: World, i: nat, x: nat)
    requires Sane(arch) && Consistent(arch, w) && i < PROBES && Live(w.probes[i]) && x < |w.image| == |w.original|
    ensures ByteOk(arch, w.original[x], w.image[x], w.probes[i := NoProbe], x) <==>
              (w.probes[i].target <= x < w.probes[i].target + arch.patchLen ==> w.image[x] == w.original[x])
  {
    var p := w.probes[i];
    assert ProbeOk(arch, w, p);
    hide TableOk;
    TableLength(arch, w);
    assert ByteOk(arch, w.original[x], w.image[x], w.probes, x);
    if Patches(arch, p, x) {
      NobodyElsePatches(arch, w, i, |p.orig|, x);
    } else {
      SamePatchesAt(arch, w.original[x], w.image[x], w.probes, i, NoProbe, x);
    }
  }

  /** The text is the original one exactly if every installed jump happens to be what was
      there. */
  lemma TextIsOriginalIf(arch: Arch, w: World)
    requires Sane(arch) && Consistent(arch, w)
    ensures w.image == w.original <==> forall k | 0 <= k < PROBES && Live(w.probes[k]) :: Unnoticed(arch, w.original, w.probes[k])
  {
    forall k | 0 <= k < PROBES && Live(w.probes[k])
      ensures w.image == w.original ==> Unnoticed(arch, w.original, w.probes[k])
    {
      JumpsLeadHome(arch, w, k);
    }
    if forall k | 0 <= k < PROBES && Live(w.probes[k]) :: Unnoticed(arch, w.original, w.probes[k]) {
      forall x | 0 <= x < |w.image| ensures w.image[x] == w.original[x] {
        UnnoticedByte(arch, w, x);
      }
    }
  }

  // The jump of p is what the text had there anyway.
  ghost predicate Unnoticed(arch: Arch, original: seq<Byte>, p: Probe) {
    p.target + arch.patchLen <= |original| && original[p.target..p.target + arch.patchLen] == arch.jump(p.tramp)
  }

  lemma UnnoticedByte(arch: Arch, w: World, x: nat)
    requires Consistent(arch, w) && x < |w.image| == |w.original|
    requires forall k | 0 <= k < PROBES && Live(w.probes[k]) :: Unnoticed(arch, w.original, w.probes[k])
    ensures w.image[x] == w.original[x]
  {
    hide TableOk;
    hide Unnoticed;
    hide JumpByte;
    TableLength(arch, w);
    assert ByteOk(arch, w.original[x], w.image[x], w.probes, x);
    if Patched(arch, w.probes, x) {
      var k :| 0 <= k < |w.probes| && Patches(arch, w.probes[k], x);
      UnnoticedAt(arch, w.original, w.probes[k], x);
    }
  }

  lemma UnnoticedAt(arch: Arch, original: seq<Byte>, p: Probe, x: nat)
    requires Unnoticed(arch, original, p) && p.target <= x < p.target + arch.patchLen
    ensures x < |original| && JumpByte(arch, p, x) == original[x]
  {
    assert original[p.target..p.target + arch.patchLen][x - p.target] == original[x];
  }
}

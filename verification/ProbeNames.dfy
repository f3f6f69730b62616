/** What cutting symbol names at 63 characters does, run step by step on a small target. */
module ProbeNames {
  import opened ByteString
  import opened Options
  import opened TrampolinePool
  import opened ProbeLifecycle
  import opened ProbeInstall
  import opened ProbeSession

  // Two functions whose names differ only in the 64th character.
  const Stem: string := seq(SYMBOL_MAX - 1, _ => 'a')
  const First: string := Stem + "1"
  const Second: string := Stem + "2"

  // 16-byte jumps over 16-byte prologues at 0 and 64.
  const SmallArch: Arch := Arch(
    16,
    tramp => seq(16, _ => 0x90),
    target => Some(16),
    (id, target, orig, tramp) => if tramp == 0 || |orig| > 32 then None else Some(orig),
    name => if name == First then Some(0) else if name == Second then Some(64) else None)

  const SmallText: seq<Byte> := seq(128, _ => 0)

  const Fine: Faults := Faults(false, 4096, false, false, false, false)
  const Unreadable: Faults := Faults(true, 4096, false, false, false, false)

  lemma NamesDiffer()
    ensures Stored(First) == Stored(Second) == Stem
    ensures First != Second && First != Stem && Second != Stem && Stem != ""
  {
    assert First[63] == '1' && Second[63] == '2';
    assert First[..63] == Stem && Second[..63] == Stem;
  }

  // With no other probe, the names lead to entry 0.
  lemma ChosenAtFirst(probes: seq<Probe>, next: nat)
    requires |probes| == PROBES && forall k | 0 <= k < PROBES :: probes[k] == NoProbe
    ensures Chosen(SmallArch, probes, next, First) == Some((0, Fresh(next, Stem, 0)))
    ensures MayRegister(SmallArch, probes, next, First)
  {
    NamesDiffer();
    assert probes[0].id == 0;
  }

  lemma ChosenAgain(probes: seq<Probe>, next: nat, name: string)
    requires |probes| == PROBES && probes[0].id != 0 && probes[0].symbol == Stem && (name == First || name == Second)
    requires forall k | 1 <= k < PROBES :: probes[k] == NoProbe
    ensures Chosen(SmallArch, probes, next, name) == Some((0, probes[0]))
    ensures MayRegister(SmallArch, probes, next, name) && Mistaken(SmallArch, probes, next, name)
  {
    NamesDiffer();
  }

  // A fresh session with one probe, on the first function.
  method InstallFirst() returns (s: Session)
    ensures fresh(s) && fresh(s.pool) && s.arch == SmallArch && s.Good() && s.original == SmallText
    ensures s.probes[0].symbol == Stem && s.probes[0].target == 0 && Live(s.probes[0])
    ensures forall k | 1 <= k < PROBES :: s.probes[k] == NoProbe
  {
    s := new Session(SmallArch, SmallText);
    ChosenAtFirst(s.probes, s.nextId);
    ghost var p := Fresh(s.nextId, Stem, 0);
    FirstFreeIs(s.pool.used, 0);
    assert Installable(SmallArch, s.View(), p, Fine.mmapAt);
    var ok := s.InstallProbe(First, None, Fine);
  }

  /** Install a function with a 64-character name, disable the probe, install it again and
      let the read of its prologue fail: the probe is gone, its slot is still in use, and
      nobody owns it. */
  method FailedReinstallLeaksTheSlot() returns (s: Session, ok: bool)
    ensures !ok && !s.Good() && |s.probes| == PROBES && forall k | 0 <= k < PROBES :: s.probes[k] == NoProbe
    ensures exists t :: 0 <= t < SLOTS && |s.pool.used| == SLOTS && s.pool.used[t] && !SlotOwned(s.probes, t)
  {
    s := InstallFirst();
    FindsIt(s.probes, s.nextId, 0);
    ok := s.DisableProbe(s.probes[0].id, Fine);
    ghost var w := s.View();
    ChosenAgain(s.probes, s.nextId, First);
    assert ProbeOk(SmallArch, w, w.probes[0]);
    hide Consistent;
    hide Chosen;
    hide Mistaken;
    ok := s.InstallProbe(First, None, Unreadable);
    assert s.pool.used[w.probes[0].slot];
  }

  /** Installing the second function reports success, but what it finds installed is the
      first one's probe; nothing patches the second. */
  method SecondNameFindsTheFirst() returns (s: Session, ok: bool)
    ensures ok && s.Good() && SmallArch.resolve(Second) == Some(64)
    ensures forall k | 0 <= k < PROBES && Live(s.probes[k]) :: s.probes[k].target == 0
    ensures |s.image| == 128 && forall x | 64 <= x < 80 :: s.image[x] == SmallText[x]
  {
    NamesDiffer();
    s := InstallFirst();
    ChosenAgain(s.probes, s.nextId, Second);
    hide Chosen;
    hide Mistaken;
    ok := s.InstallProbe(Second, None, Fine);
    forall x | 64 <= x < 80 ensures s.image[x] == SmallText[x] {
      assert ByteOk(SmallArch, s.original[x], s.image[x], s.probes, x);
    }
  }
}

/** A stop that cannot restore a prologue, run on a small target. */
module ProbeStop {
  import opened ByteString
  import opened TrampolinePool
  import opened ProbeLifecycle
  import opened ProbeSession
  import opened ProbeNames

  const Unwritable: Faults := Faults(false, 4096, false, false, false, true)

  /** One probe is installed and its prologue cannot be written back: the stop forgets the
      probe and gives its slot back, but the jump to that slot stays in the text. */
  method StopLeavesAJump() returns (s: Session, ok: bool)
    ensures !ok && s.image != s.original && |s.image| >= 16 && |s.probes| == PROBES
    ensures exists tramp: nat :: s.image[..16] == SmallArch.jump(tramp)
    ensures AllFree(s.pool.used) && forall k | 0 <= k < PROBES :: s.probes[k].id == 0
  {
    s := InstallFirst();
    ghost var p := s.probes[0];
    hide Consistent;
    ok := s.Stop(_ => Unwritable, false);
    assert Remains(p, Unwritable);
    assert JumpAt(SmallArch, s.image, p) && s.image[0..16] == SmallArch.jump(p.tramp);
    assert s.image[0..16][0] == 0x90 && s.original[0] == 0;
  }
}

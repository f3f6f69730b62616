/** Copying a prologue to a trampoline: absolute jumps through r11, inverted short jumps
    over them, and RIP-relative operands rebased. */
module X86Relocation {
  import opened Words
  import opened ByteString
  import opened Options
  import opened X86Code

  // What a copied instruction does: go on, or, as ret and indirect jumps do, leave.
  datatype Effect = Falls(cpu: Cpu) | Leaves(target: Word, cpu: Cpu)

  // One disassembled instruction, with absolute branch targets. A copied instruction is any
  // effect; one with a RIP-relative operand is given the address it refers to, with its
  // displacement at byte dispAt. JumpCx stands for JCXZ, JECXZ and JRCXZ.
  datatype Insn =
    | Jmp(size: nat, target: Word)
    | JumpIf(size: nat, jcc: Jcc, target: Word)
    | JumpCx(size: nat, target: Word)
    | Call(size: nat, target: Word)
    | RipRelative(bytes: seq<Byte>, dispAt: nat, dispSize: nat, access: (Word, Cpu) -> Effect)
    | Plain(bytes: seq<Byte>, effect: Cpu -> Effect)

  function Size(i: Insn): nat {
    if i.RipRelative? || i.Plain? then |i.bytes| else i.size
  }

  // What the disassembler guarantees.
  predicate Decoded(i: Insn) {
    match i
    case Jmp(size, _) => size >= 2
    case JumpIf(size, _, _) => size >= 2
    case JumpCx(size, _) => size >= 2
    case Call(size, _) => size >= 5
    case RipRelative(bytes, dispAt, dispSize, _) => dispAt + dispSize <= |bytes|
    case Plain(bytes, _) => bytes != []
  }

  function TotalSize(code: seq<Insn>): nat {
    if code == [] then 0 else Size(code[0]) + TotalSize(code[1..])
  }

  // The address a RIP-relative operand refers to, for bytes placed at `at`.
  function Refers(bytes: seq<Byte>, dispAt: nat, at: int): Word
    requires dispAt + 4 <= |bytes|
  {
    Wrap(at + |bytes| + Signed32(Value(bytes[dispAt..dispAt + 4])))
  }

  /* The emitters. */

  function InverseOpcode(j: Jcc): Byte {
    match j
    case JO => 0x71
    case JNO => 0x70
    case JB => 0x73
    case JAE => 0x72
    case JE => 0x75
    case JNE => 0x74
    case JBE => 0x77
    case JA => 0x76
    case JS => 0x79
    case JNS => 0x78
    case JP => 0x7B
    case JNP => 0x7A
    case JL => 0x7D
    case JGE => 0x7C
    case JLE => 0x7F
    case JG => 0x7E
  }

  function AbsJump(target: Word): (s: seq<Byte>)
    ensures |s| == 13
  {
    [0x49, 0xBB] + Bytes(8, target) + [0x41, 0xFF, 0xE3]
  }

  function AbsCall(target: Word): (s: seq<Byte>)
    ensures |s| == 17
  {
    [0x41, 0x53] + [0x49, 0xBB] + Bytes(8, target) + [0x41, 0xFF, 0xD3] + [0x41, 0x5B]
  }

  // The displacement field overwritten, unless it is not 32 bits or the value does not fit.
  function PatchDisp(bytes: seq<Byte>, dispAt: nat, dispSize: nat, disp: int): Option<seq<Byte>>
    requires dispAt + dispSize <= |bytes|
  {
    if dispSize != 4 || disp < -0x8000_0000 || disp >= 0x8000_0000 then None
    else Some(bytes[..dispAt] + Bytes(4, Unsigned32(disp)) + bytes[dispAt + 4..])
  }

  // The code for one instruction at `at`, placed at `to`.
  function Relocate(i: Insn, at: int, to: int): Option<seq<Byte>>
    requires Decoded(i)
  {
    match i
    case Jmp(_, target) => Some(AbsJump(target))
    case JumpIf(_, jcc, target) => Some([InverseOpcode(jcc), 13] + AbsJump(target))
    case JumpCx(_, _) => None
    case Call(_, target) => Some(AbsCall(target))
    case Plain(bytes, _) => Some(bytes)
    case RipRelative(bytes, dispAt, dispSize, _) =>
      if dispSize != 4 then None
      else
        var disp := Signed64(Wrap(Refers(bytes, dispAt, at) - (to + |bytes|)));
        PatchDisp(bytes, dispAt, dispSize, disp)
  }

  function RelocateAll(code: seq<Insn>, at: int, to: int): Option<seq<Byte>>
    requires forall i | i in code :: Decoded(i)
  {
    if code == [] then Some([])
    else
      var first := Relocate(code[0], at, to);
      if first.None? then None
      else
        var rest := RelocateAll(code[1..], at + Size(code[0]), to + |first.value|);
        if rest.None? then None else Some(first.value + rest.value)
  }

  /** The opcode chosen for a conditional jump tests exactly the opposite condition. */
  lemma InverseIsOpposite(j: Jcc, f: Flags)
    ensures 0x70 <= InverseOpcode(j) <= 0x7F
    ensures TakenByCode(InverseOpcode(j) - 0x70, f) <==> !Taken(j, f)
  {
  }

  /** A rebased operand refers to the same address from its new place, and no byte but the
      displacement changed. */
  lemma RebasedRefersAlike(i: Insn, at: int, to: int)
    requires Decoded(i) && i.RipRelative? && Relocate(i, at, to).Some?
    ensures i.dispSize == 4
    ensures var copy := Relocate(i, at, to).value;
            && |copy| == |i.bytes| && copy[..i.dispAt] == i.bytes[..i.dispAt]
            && copy[i.dispAt + 4..] == i.bytes[i.dispAt + 4..]
            && Refers(copy, i.dispAt, to) == Refers(i.bytes, i.dispAt, at)
  {
    var copy := Relocate(i, at, to).value;
    var target := Refers(i.bytes, i.dispAt, at);
    var disp := Signed64(Wrap(target - (to + |i.bytes|)));
    assert copy[i.dispAt..i.dispAt + 4] == Bytes(4, Unsigned32(disp));
    Disp32ReadsBack(disp);
    WrapCancels(target, to + |i.bytes|);
  }

  lemma WrapCancels(target: Word, next: int)
    ensures Wrap(next + Signed64(Wrap(target - next))) == target
  {
    var d := Wrap(target - next);
    assert (target - next - d) % TWO64 == 0;
    assert exists k :: target - next == d + k * TWO64 by {
      assert target - next == d + ((target - next) / TWO64) * TWO64;
    }
    var k :| target - next == d + k * TWO64;
    if d < 0x8000_0000_0000_0000 {
      assert next + Signed64(d) == target - k * TWO64;
      ModShift(target, -k);
    } else {
      assert next + Signed64(d) == target + (-k - 1) * TWO64;
      ModShift(target, -k - 1);
    }
  }

  lemma ModShift(w: Word, k: int)
    ensures (w + k * TWO64) % TWO64 == w
  {
  }

  /* What running the code does. */

  // Leaves the code for a target (by a branch of the prologue, or otherwise), calls a
  // function, goes on at an offset of the trampoline, or stays in the original prologue:
  // by a branch, or by calling one of its own instructions.
  datatype Outcome =
    | Exits(target: Word, branched: bool, cpu: Cpu)
    | Calls(target: Word)
    | CallsInside(target: Word)
    | Reaches(off: nat, cpu: Cpu)
    | Stays(target: Word, cpu: Cpu)
    | Stuck

  // The target lies in the size bytes from lo on.
  predicate Inside(target: Word, lo: int, size: nat) {
    Wrap(target - lo) < size
  }

  // The index of a later instruction of `code`, which starts at `at`, that lies at target.
  function Later(code: seq<Insn>, at: int, target: Word): (j: nat)
    ensures j <= |code| && (j < |code| ==> j > 0)
  {
    if |code| <= 1 then |code|
    else if Wrap(at + Size(code[0])) == target then 1
    else 1 + Later(code[1..], at + Size(code[0]), target)
  }

  // The prologue where it was: size bytes from lo on, of which `code` from `at` on is left.
  // A branch to a later instruction goes on there; one back or into an instruction stays.
  function RunOriginal(code: seq<Insn>, at: int, lo: int, size: nat, cpu: Cpu): Outcome
    decreases |code|
  {
    if code == [] then Exits(Wrap(at), false, cpu)
    else
      var rest, next := code[1..], at + Size(code[0]);
      match code[0]
      case Jmp(_, target) => RunTaken(code, at, lo, size, cpu, target)
      case JumpIf(_, jcc, target) =>
        if Taken(jcc, cpu.flags) then RunTaken(code, at, lo, size, cpu, target) else RunOriginal(rest, next, lo, size, cpu)
      case JumpCx(_, _) => Stuck
      case Call(_, target) => if Inside(target, lo, size) then CallsInside(target) else Calls(target)
      case Plain(_, effect) =>
        (match effect(cpu)
         case Falls(cpu') => RunOriginal(rest, next, lo, size, cpu')
         case Leaves(target, cpu') => Exits(target, false, cpu'))
      case RipRelative(bytes, dispAt, dispSize, access) =>
        if dispAt + 4 > |bytes| then Stuck
        else
          match access(Refers(bytes, dispAt, at), cpu)
          case Falls(cpu') => RunOriginal(rest, next, lo, size, cpu')
          case Leaves(target, cpu') => Exits(target, false, cpu')
  }

  // After a taken branch of code[0].
  function RunTaken(code: seq<Insn>, at: int, lo: int, size: nat, cpu: Cpu, target: Word): Outcome
    requires code != []
    decreases |code|, 0
  {
    if !Inside(target, lo, size) then Exits(target, true, cpu)
    else
      var j := Later(code, at, target);
      if j < |code| then RunOriginal(code[j..], at + TotalSize(code[..j]), lo, size, cpu) else Stays(target, cpu)
  }

  // The same, but that every taken branch leaves. This is what the copy does.
  function RunLeaving(code: seq<Insn>, at: int, cpu: Cpu): Outcome {
    if code == [] then Exits(Wrap(at), false, cpu)
    else
      var rest, next := code[1..], at + Size(code[0]);
      match code[0]
      case Jmp(_, target) => Exits(target, true, cpu)
      case JumpIf(_, jcc, target) =>
        if Taken(jcc, cpu.flags) then Exits(target, true, cpu) else RunLeaving(rest, next, cpu)
      case JumpCx(_, _) => Stuck
      case Call(_, target) => Calls(target)
      case Plain(_, effect) =>
        (match effect(cpu)
         case Falls(cpu') => RunLeaving(rest, next, cpu')
         case Leaves(target, cpu') => Exits(target, false, cpu'))
      case RipRelative(bytes, dispAt, dispSize, access) =>
        if dispAt + 4 > |bytes| then Stuck
        else
          match access(Refers(bytes, dispAt, at), cpu)
          case Falls(cpu') => RunLeaving(rest, next, cpu')
          case Leaves(target, cpu') => Exits(target, false, cpu')
  }

  predicate BranchesInside(i: Insn, lo: int, size: nat) {
    (i.Jmp? || i.JumpIf? || i.Call?) && Inside(i.target, lo, size)
  }

  // No branch or call of the prologue lands on a byte that the patch may overwrite.
  ghost predicate BranchesLeave(code: seq<Insn>, lo: int, size: nat) {
    forall i | i in code :: !BranchesInside(i, lo, size)
  }

  // The state after an instruction that neither leaves nor branches nor calls.
  function Passed(i: Insn, at: int, cpu: Cpu): Option<Cpu> {
    match i
    case JumpIf(_, jcc, _) => if Taken(jcc, cpu.flags) then None else Some(cpu)
    case Plain(_, effect) => FellTo(effect(cpu))
    case RipRelative(bytes, dispAt, _, access) =>
      if dispAt + 4 > |bytes| then None else FellTo(access(Refers(bytes, dispAt, at), cpu))
    case _ => None
  }

  function FellTo(e: Effect): Option<Cpu> {
    if e.Falls? then Some(e.cpu) else None
  }

  // The first branch taken or call made when running the prologue lands inside it.
  predicate TurnsInside(code: seq<Insn>, at: int, lo: int, size: nat, cpu: Cpu)
    decreases |code|
  {
    code != [] &&
    match Passed(code[0], at, cpu)
    case Some(cpu') => TurnsInside(code[1..], at + Size(code[0]), lo, size, cpu')
    case None => BranchesInside(code[0], lo, size)
  }

  lemma {:induction false} LeavingNeverTurns(code: seq<Insn>, at: int, lo: int, size: nat, cpu: Cpu)
    requires BranchesLeave(code, lo, size)
    ensures !TurnsInside(code, at, lo, size, cpu)
  {
    hide BranchesInside;
    if code != [] && Passed(code[0], at, cpu).Some? {
      assert BranchesLeave(code[1..], lo, size);
      LeavingNeverTurns(code[1..], at + Size(code[0]), lo, size, Passed(code[0], at, cpu).value);
    }
  }

  // Both runs go on alike after an instruction that is passed.
  lemma PassedAlike(code: seq<Insn>, at: int, lo: int, size: nat, cpu: Cpu)
    requires code != [] && Passed(code[0], at, cpu).Some?
    ensures var cpu', next := Passed(code[0], at, cpu).value, at + Size(code[0]);
            && RunLeaving(code, at, cpu) == RunLeaving(code[1..], next, cpu')
            && RunOriginal(code, at, lo, size, cpu) == RunOriginal(code[1..], next, lo, size, cpu')
  {
    hide Refers;
    hide Taken;
    hide Inside;
  }

  // Otherwise they end alike, unless a branch or call lands inside.
  lemma EndAlike(code: seq<Insn>, at: int, lo: int, size: nat, cpu: Cpu)
    requires code == [] || Passed(code[0], at, cpu).None?
    ensures code == [] || !BranchesInside(code[0], lo, size) ==> RunLeaving(code, at, cpu) == RunOriginal(code, at, lo, size, cpu)
    ensures code != [] && BranchesInside(code[0], lo, size) ==> LeavesInto(RunLeaving(code, at, cpu), lo, size)
  {
    hide Refers;
    hide Taken;
    hide Inside;
  }

  // Branched or called to a byte of the prologue.
  ghost predicate LeavesInto(o: Outcome, lo: int, size: nat) {
    ((o.Exits? && o.branched) || o.Calls?) && Inside(o.target, lo, size)
  }

  // The original never leaves its prologue for a byte of it.
  lemma {:induction false} OriginalNeverLeavesInto(code: seq<Insn>, at: int, lo: int, size: nat, cpu: Cpu)
    ensures !LeavesInto(RunOriginal(code, at, lo, size, cpu), lo, size)
    decreases |code|
  {
    hide Refers;
    hide Taken;
    hide Inside;
    hide Later;
    if code != [] {
      if Passed(code[0], at, cpu).Some? {
        PassedAlike(code, at, lo, size, cpu);
        OriginalNeverLeavesInto(code[1..], at + Size(code[0]), lo, size, Passed(code[0], at, cpu).value);
      } else if code[0].Jmp? || code[0].JumpIf? {
        var j := Later(code, at, code[0].target);
        if j < |code| {
          OriginalNeverLeavesInto(code[j..], at + TotalSize(code[..j]), lo, size, cpu);
        }
      }
    }
  }

  /** Leaving at every taken branch is what the original does exactly if the first branch it
      takes or call it makes does not land inside the prologue; if that does, this run
      leaves for an overwritten byte, which the original never does. */
  lemma {:induction false} LeavingExactlyIf(code: seq<Insn>, at: int, lo: int, size: nat, cpu: Cpu)
    ensures !TurnsInside(code, at, lo, size, cpu) ==> RunLeaving(code, at, cpu) == RunOriginal(code, at, lo, size, cpu)
    ensures TurnsInside(code, at, lo, size, cpu) ==> LeavesInto(RunLeaving(code, at, cpu), lo, size)
    decreases |code|
  {
    hide RunLeaving;
    hide RunOriginal;
    hide Passed;
    hide BranchesInside;
    if code != [] && Passed(code[0], at, cpu).Some? {
      PassedAlike(code, at, lo, size, cpu);
      LeavingExactlyIf(code[1..], at + Size(code[0]), lo, size, Passed(code[0], at, cpu).value);
    } else {
      EndAlike(code, at, lo, size, cpu);
    }
  }

  // The bytes of a rewritten branch, up to `end`. What a push does to the stack is not
  // followed.
  function RunBranch(t: seq<Byte>, off: nat, end: nat, cpu: Cpu): Outcome
    decreases end - off
  {
    if off >= end then Reaches(off, cpu)
    else if off > |t| then Stuck
    else
      var (m, n) := Fetch(t, off);
      match m
      case MovR11(w) => RunBranch(t, off + n, end, cpu.(r11 := w))
      case JmpR11 => Exits(cpu.r11, true, cpu)
      case CallR11 => Calls(cpu.r11)
      case PushR11 => RunBranch(t, off + n, end, cpu)
      case ShortJump(c, rel) => RunBranch(t, off + n + (if TakenByCode(c, cpu.flags) then rel else 0), end, cpu)
      case _ => Stuck
  }

  function BranchLength(i: Insn): nat {
    if i.Jmp? then 13 else if i.JumpIf? then 15 else 17
  }

  // A copied instruction as it stands in the trampoline: the same bytes, but for the
  // displacement.
  predicate CopiedAt(t: seq<Byte>, off: nat, bytes: seq<Byte>, dispAt: nat) {
    && off + |bytes| <= |t| && dispAt + 4 <= |bytes|
    && t[off..off + dispAt] == bytes[..dispAt]
    && t[off + dispAt + 4..off + |bytes|] == bytes[dispAt + 4..]
  }

  // The trampoline t, loaded at base, from the offset where the copy of `code` starts.
  function RunCopy(code: seq<Insn>, t: seq<Byte>, off: nat, base: int, cpu: Cpu): Outcome
    decreases |code|, 1
  {
    if code == [] then RunBack(t, off, cpu)
    else
      match code[0]
      case Plain(bytes, effect) =>
        if off + |bytes| > |t| || t[off..off + |bytes|] != bytes then Stuck
        else RunOn(code, t, off + |bytes|, base, effect(cpu))
      case RipRelative(bytes, dispAt, _, access) =>
        if !CopiedAt(t, off, bytes, dispAt) then Stuck
        else RunOn(code, t, off + |bytes|, base, access(Refers(t[off..off + |bytes|], dispAt, base + off), cpu))
      case _ =>
        var o := RunBranch(t, off, off + BranchLength(code[0]), cpu);
        if o.Reaches? then RunCopy(code[1..], t, o.off, base, o.cpu) else o
  }

  // After the copied first instruction.
  function RunOn(code: seq<Insn>, t: seq<Byte>, off: nat, base: int, e: Effect): Outcome
    requires code != []
    decreases |code|, 0
  {
    match e
    case Falls(cpu) => RunCopy(code[1..], t, off, base, cpu)
    case Leaves(target, cpu) => Exits(target, false, cpu)
  }

  // The final jump through a literal.
  function RunBack(t: seq<Byte>, off: nat, cpu: Cpu): Outcome {
    if off > |t| then Stuck
    else
      var (m, n) := Fetch(t, off);
      if !m.JmpMem? then Stuck
      else
        var at := off + n + m.disp;
        if at < 0 || at + 8 > |t| then Stuck else Exits(Wrap(Value(t[at..at + 8])), false, cpu)
  }

  // A jump out of the prologue leaves its target in r11.
  function ThroughR11(o: Outcome): Outcome {
    if o.Exits? && o.branched then Exits(o.target, true, o.cpu.(r11 := o.target)) else o
  }

  lemma FetchMov(t: seq<Byte>, off: nat, w: Word)
    requires off + 10 <= |t| && t[off..off + 10] == [0x49, 0xBB] + Bytes(8, w)
    ensures Fetch(t, off) == (MovR11(w), 10)
  {
    hide Bytes;
    hide Value;
    var s := t[off..off + 10];
    assert t[off] == s[0] && t[off + 1] == s[1];
    SliceOfSlice(t, off, 10, 2, 10);
    assert s[2..10] == Bytes(8, w);
    Imm64ReadsBack(w);
  }

  lemma FetchThree(t: seq<Byte>, off: nat, op: Byte)
    requires off + 3 <= |t| && t[off..off + 3] == [0x41, 0xFF, op] && (op == 0xE3 || op == 0xD3)
    ensures Fetch(t, off) == (if op == 0xE3 then JmpR11 else CallR11, 3)
  {
    var s := t[off..off + 3];
    assert t[off] == s[0] && t[off + 1] == s[1] && t[off + 2] == s[2];
  }

  lemma JumpPiece(t: seq<Byte>, off: nat, target: Word, cpu: Cpu, end: nat)
    requires off + 13 <= |t| && t[off..off + 13] == AbsJump(target) && off + 13 <= end
    ensures RunBranch(t, off, end, cpu) == Exits(target, true, cpu.(r11 := target))
  {
    var p := t[off..off + 13];
    assert t[off..off + 10] == p[..10] == [0x49, 0xBB] + Bytes(8, target);
    FetchMov(t, off, target);
    assert t[off + 10..off + 13] == p[10..] == [0x41, 0xFF, 0xE3];
    FetchThree(t, off + 10, 0xE3);
    hide Fetch;
    assert RunBranch(t, off + 10, end, cpu.(r11 := target)) == Exits(target, true, cpu.(r11 := target));
  }

  lemma SkipPiece(t: seq<Byte>, off: nat, jcc: Jcc, target: Word, cpu: Cpu)
    requires off + 15 <= |t| && t[off..off + 15] == [InverseOpcode(jcc), 13] + AbsJump(target)
    ensures RunBranch(t, off, off + 15, cpu) ==
              if Taken(jcc, cpu.flags) then Exits(target, true, cpu.(r11 := target)) else Reaches(off + 15, cpu)
  {
    var p := t[off..off + 15];
    assert t[off] == p[0] && t[off + 1] == p[1] == 13;
    InverseIsOpposite(jcc, cpu.flags);
    assert Fetch(t, off) == (ShortJump(InverseOpcode(jcc) - 0x70, 13), 2);
    assert t[off + 2..off + 15] == p[2..] == AbsJump(target);
    JumpPiece(t, off + 2, target, cpu, off + 15);
  }

  lemma CallPiece(t: seq<Byte>, off: nat, target: Word, cpu: Cpu)
    requires off + 17 <= |t| && t[off..off + 17] == AbsCall(target)
    ensures RunBranch(t, off, off + 17, cpu) == Calls(target)
  {
    hide Fetch;
    hide AbsCall;
    hide Bytes;
    hide RunBranch;
    AbsCallParts(target);
    SliceOfSlice(t, off, 17, 0, 2);
    SliceOfSlice(t, off, 17, 2, 12);
    SliceOfSlice(t, off, 17, 12, 15);
    FetchPush(t, off);
    OneStep(t, off, off + 17, cpu);
    FetchMov(t, off + 2, target);
    OneStep(t, off + 2, off + 17, cpu);
    FetchThree(t, off + 12, 0xD3);
    OneStep(t, off + 12, off + 17, cpu.(r11 := target));
  }

  lemma OneStep(t: seq<Byte>, off: nat, end: nat, cpu: Cpu)
    requires off < end && off <= |t|
    ensures var (m, n) := Fetch(t, off);
            && (m.PushR11? ==> RunBranch(t, off, end, cpu) == RunBranch(t, off + n, end, cpu))
            && (m.MovR11? ==> RunBranch(t, off, end, cpu) == RunBranch(t, off + n, end, cpu.(r11 := m.w)))
            && (m.CallR11? ==> RunBranch(t, off, end, cpu) == Calls(cpu.r11))
  {
    hide Fetch;
  }

  lemma AbsCallParts(target: Word)
    ensures var c := AbsCall(target);
            c[..2] == [0x41, 0x53] && c[2..12] == [0x49, 0xBB] + Bytes(8, target) && c[12..15] == [0x41, 0xFF, 0xD3]
  {
    var imm := Bytes(8, target);
    assert AbsCall(target) == [0x41, 0x53] + ([0x49, 0xBB] + imm) + ([0x41, 0xFF, 0xD3] + [0x41, 0x5B]);
  }

  lemma FetchPush(t: seq<Byte>, off: nat)
    requires off + 2 <= |t| && t[off..off + 2] == [0x41, 0x53]
    ensures Fetch(t, off) == (PushR11, 2)
  {
    var s := t[off..off + 2];
    assert t[off] == s[0] && t[off + 1] == s[1];
  }

  lemma SliceOfSlice(t: seq<Byte>, off: nat, n: nat, a: nat, b: nat)
    requires off + n <= |t| && a <= b <= n
    ensures t[off..off + n][a..b] == t[off + a..off + b]
  {
    var inner, direct := t[off..off + n][a..b], t[off + a..off + b];
    assert |inner| == |direct| && forall k | 0 <= k < |direct| :: inner[k] == t[off + a + k] == direct[k];
  }

  ghost predicate GoesBack(t: seq<Byte>, off: nat, addr: Word) {
    forall cpu: Cpu :: RunBack(t, off, cpu) == Exits(addr, false, cpu)
  }

  // One instruction of the copy, and what is left to show for the others.
  lemma OneCopied(i: Insn, at: int, t: seq<Byte>, off: nat, base: int, cpu: Cpu, piece: seq<Byte>)
    requires Decoded(i) && Relocate(i, at, base + off) == Some(piece)
    requires off + |piece| <= |t| && t[off..off + |piece|] == piece
    ensures i.Plain? ==> piece == i.bytes
    ensures i.RipRelative? ==> |piece| == |i.bytes| && CopiedAt(t, off, i.bytes, i.dispAt)
    ensures i.RipRelative? ==> Refers(piece, i.dispAt, base + off) == Refers(i.bytes, i.dispAt, at)
    ensures !i.Plain? && !i.RipRelative? ==> |piece| == BranchLength(i) && !i.JumpCx?
    ensures i.Jmp? ==> RunBranch(t, off, off + 13, cpu) == Exits(i.target, true, cpu.(r11 := i.target))
    ensures i.JumpIf? ==>
              RunBranch(t, off, off + 15, cpu) ==
                if Taken(i.jcc, cpu.flags) then Exits(i.target, true, cpu.(r11 := i.target)) else Reaches(off + 15, cpu)
    ensures i.Call? ==> RunBranch(t, off, off + 17, cpu) == Calls(i.target)
  {
    hide RunBranch;
    hide Taken;
    hide AbsJump;
    hide AbsCall;
    hide CopiedAt;
    hide Refers;
    match i
    case Jmp(_, target) => JumpPiece(t, off, target, cpu, off + 13);
    case JumpIf(_, jcc, target) => SkipPiece(t, off, jcc, target, cpu);
    case Call(_, target) => CallPiece(t, off, target, cpu);
    case RipRelative(_, _, _, _) => RebasedCopied(i, at, t, off, base, piece);
    case _ =>
  }

  lemma RebasedCopied(i: Insn, at: int, t: seq<Byte>, off: nat, base: int, piece: seq<Byte>)
    requires Decoded(i) && i.RipRelative? && Relocate(i, at, base + off) == Some(piece)
    requires off + |piece| <= |t| && t[off..off + |piece|] == piece
    ensures i.dispSize == 4 && |piece| == |i.bytes| && CopiedAt(t, off, i.bytes, i.dispAt)
    ensures Refers(piece, i.dispAt, base + off) == Refers(i.bytes, i.dispAt, at)
  {
    hide Refers;
    hide Relocate;
    RebasedRefersAlike(i, at, base + off);
    SliceOfSlice(t, off, |piece|, 0, i.dispAt);
    SliceOfSlice(t, off, |piece|, i.dispAt + 4, |piece|);
    assert piece[i.dispAt + 4..] == piece[i.dispAt + 4..|piece|];
  }

  // The state after an instruction that does not leave the prologue.
  function Onward(i: Insn, at: int, cpu: Cpu): Option<Cpu>
    requires Decoded(i)
  {
    match i
    case Plain(_, effect) => FellTo(effect(cpu))
    case RipRelative(bytes, dispAt, dispSize, access) =>
      if dispSize != 4 then None else FellTo(access(Refers(bytes, dispAt, at), cpu))
    case JumpIf(_, jcc, _) => if Taken(jcc, cpu.flags) then None else Some(cpu)
    case _ => None
  }

  lemma CopyStep(code: seq<Insn>, at: int, t: seq<Byte>, off: nat, base: int, cpu: Cpu, piece: seq<Byte>)
    requires code != [] && Decoded(code[0]) && Relocate(code[0], at, base + off) == Some(piece)
    requires off + |piece| <= |t| && t[off..off + |piece|] == piece
    ensures var next := Onward(code[0], at, cpu);
            if next.None? then RunCopy(code, t, off, base, cpu) == ThroughR11(RunLeaving(code, at, cpu))
            else && RunCopy(code, t, off, base, cpu) == RunCopy(code[1..], t, off + |piece|, base, next.value)
                 && RunLeaving(code, at, cpu) == RunLeaving(code[1..], at + Size(code[0]), next.value)
  {
    hide RunBranch;
    hide RunBack;
    hide Relocate;
    hide Refers;
    hide Taken;
    hide CopiedAt;
    OneCopied(code[0], at, t, off, base, cpu, piece);
    if code[0].RipRelative? {
      RebasedRefersAlike(code[0], at, base + off);
    }
  }

  lemma NothingCopied(at: int, t: seq<Byte>, off: nat, base: int, cpu: Cpu)
    ensures RelocateAll([], at, base + off) == Some([])
    ensures GoesBack(t, off, Wrap(at)) ==> RunCopy([], t, off, base, cpu) == ThroughR11(RunLeaving([], at, cpu))
  {
    hide RunBack;
  }

  lemma Pieces(code: seq<Insn>, at: int, to: int, bytes: seq<Byte>)
    requires code != [] && (forall i | i in code :: Decoded(i)) && RelocateAll(code, at, to) == Some(bytes)
    ensures var piece := Relocate(code[0], at, to);
            && piece.Some? && |piece.value| <= |bytes| && bytes[..|piece.value|] == piece.value
            && RelocateAll(code[1..], at + Size(code[0]), to + |piece.value|) == Some(bytes[|piece.value|..])
  {
    hide Relocate;
  }

  /** Running the copy does what running the original does with every taken branch leaving,
      and branches go through r11. */
  lemma {:induction false} CopyBehaves(code: seq<Insn>, at: int, t: seq<Byte>, off: nat, base: int, cpu: Cpu, bytes: seq<Byte>)
    requires (forall i | i in code :: Decoded(i)) && RelocateAll(code, at, base + off) == Some(bytes)
    requires off + |bytes| <= |t| && t[off..off + |bytes|] == bytes
    requires GoesBack(t, off + |bytes|, Wrap(at + TotalSize(code)))
    ensures RunCopy(code, t, off, base, cpu) == ThroughR11(RunLeaving(code, at, cpu))
  {
    hide Relocate;
    hide RunCopy;
    hide RunLeaving;
    hide RelocateAll;
    hide ThroughR11;
    hide Onward;
    hide GoesBack;
    if code == [] {
      NothingCopied(at, t, off, base, cpu);
      return;
    }
    Pieces(code, at, base + off, bytes);
    var piece := Relocate(code[0], at, base + off).value;
    SliceOfSlice(t, off, |bytes|, 0, |piece|);
    SliceOfSlice(t, off, |bytes|, |piece|, |bytes|);
    assert bytes[|piece|..] == bytes[|piece|..|bytes|];
    CopyStep(code, at, t, off, base, cpu, piece);
    var next := Onward(code[0], at, cpu);
    if next.Some? {
      CopyBehaves(code[1..], at + Size(code[0]), t, off + |piece|, base, next.value, bytes[|piece|..]);
    }
  }

  /* The whole trampoline. */

  const PREFIX: nat := 16
  const SUFFIX: nat := 22
  const ORIG_CODE_MAX: nat := 32
  const TRAMPOLINE_MAX: nat := 512

  // push id; call [entry literal]; lea rsp, [rsp + 8]
  function Prefix(id: Word, callDisp: nat): (s: seq<Byte>)
    ensures |s| == PREFIX
  {
    [0x68] + Bytes(4, id % 0x1_0000_0000) + [0xFF, 0x15] + Bytes(4, callDisp) + [0x48, 0x8D, 0x64, 0x24, 0x08]
  }

  // jmp [continue literal]; the literals
  function Suffix(jmpDisp: nat, stub: Word, back: Word): (s: seq<Byte>)
    ensures |s| == SUFFIX
  {
    [0xFF, 0x25] + Bytes(4, jmpDisp) + Bytes(8, stub) + Bytes(8, back)
  }

  // With a body of n bytes the entry literal is at PREFIX + n + 6, the continue literal 8
  // further on, and the displacements count from the ends of the two instructions.
  function Laid(id: Word, body: seq<Byte>, stub: Word, back: Word): (t: seq<Byte>)
    ensures |t| == PREFIX + |body| + SUFFIX
  {
    var entrySlot := PREFIX + |body| + 6;
    var backSlot := entrySlot + 8;
    Prefix(id, entrySlot - 11) + body + Suffix(backSlot - (PREFIX + |body| + 6), stub, back)
  }

  lemma LaidParts(id: Word, body: seq<Byte>, stub: Word, back: Word)
    ensures var t, n := Laid(id, body, stub, back), |body|;
            && t[..PREFIX] == Prefix(id, n + 11)
            && t[PREFIX..PREFIX + n] == body
            && t[PREFIX + n..PREFIX + n + SUFFIX] == Suffix(8, stub, back)
  {
    hide Prefix;
    hide Suffix;
  }

  lemma PrefixParts(id: Word, disp: nat)
    ensures var s := Prefix(id, disp);
            && s[0] == 0x68 && s[1..5] == Bytes(4, id % 0x1_0000_0000)
            && s[5] == 0xFF && s[6] == 0x15 && s[7..11] == Bytes(4, disp)
            && s[11..16] == [0x48, 0x8D, 0x64, 0x24, 0x08]
  {
    hide Bytes;
  }

  lemma SuffixParts(disp: nat, stub: Word, back: Word)
    ensures var s := Suffix(disp, stub, back);
            && s[0] == 0xFF && s[1] == 0x25 && s[2..6] == Bytes(4, disp)
            && s[6..14] == Bytes(8, stub) && s[14..22] == Bytes(8, back)
  {
    hide Bytes;
  }

  /** For every body, the prefix pushes the probe id, calls through a literal that holds the
      entry stub's address and drops what it pushed; the suffix jumps through a literal that
      holds the address to continue at. */
  lemma LiteralsResolve(id: Word, body: seq<Byte>, stub: Word, back: Word)
    requires |body| <= TRAMPOLINE_MAX
    ensures var t, n := Laid(id, body, stub, back), |body|;
            && Fetch(t, 0) == (PushImm(Signed32(id % 0x1_0000_0000)), 5)
            && Fetch(t, 5) == (CallMem(n + 11), 6) && Value(t[11 + n + 11..11 + n + 11 + 8]) == stub
            && Fetch(t, 11) == (DropOne, 5)
            && GoesBack(t, PREFIX + n, back)
  {
    var t, n := Laid(id, body, stub, back), |body|;
    LaidParts(id, body, stub, back);
    hide Laid;
    PrefixFetches(t, id, n);
    SuffixFetches(t, PREFIX + n, stub, back);
    assert 11 + n + 11 == PREFIX + n + 6;
  }

  lemma Small32(v: nat)
    requires v < 0x1_0000_0000
    ensures Value(Bytes(4, v)) == v
  {
    Pow256At4And8();
    BytesReadBack(4, v);
  }

  lemma FetchMem(t: seq<Byte>, off: nat, op: Byte, disp: nat)
    requires off + 6 <= |t| && t[off] == 0xFF && t[off + 1] == op && (op == 0x15 || op == 0x25)
    requires t[off + 2..off + 6] == Bytes(4, disp) && disp < 0x8000_0000
    ensures Fetch(t, off) == (if op == 0x15 then CallMem(disp) else JmpMem(disp), 6)
  {
    hide Value;
    hide Bytes;
    Small32(disp);
  }

  lemma FetchPushImm(t: seq<Byte>, off: nat, v: nat)
    requires off + 5 <= |t| && t[off] == 0x68 && t[off + 1..off + 5] == Bytes(4, v) && v < 0x1_0000_0000
    ensures Fetch(t, off) == (PushImm(Signed32(v)), 5)
  {
    hide Value;
    hide Bytes;
    Small32(v);
  }

  lemma PrefixFetches(t: seq<Byte>, id: Word, n: nat)
    requires |t| >= PREFIX && t[..PREFIX] == Prefix(id, n + 11) && n <= TRAMPOLINE_MAX
    ensures Fetch(t, 0) == (PushImm(Signed32(id % 0x1_0000_0000)), 5)
    ensures Fetch(t, 5) == (CallMem(n + 11), 6)
    ensures Fetch(t, 11) == (DropOne, 5)
  {
    hide Prefix;
    hide Value;
    hide Bytes;
    PrefixParts(id, n + 11);
    var s := t[..PREFIX];
    assert t[0..PREFIX] == s;
    SliceOfSlice(t, 0, PREFIX, 1, 5);
    SliceOfSlice(t, 0, PREFIX, 7, 11);
    SliceOfSlice(t, 0, PREFIX, 11, 16);
    assert t[0] == s[0] && t[5] == s[5] && t[6] == s[6];
    assert t[11] == t[11..16][0];
    FetchPushImm(t, 0, id % 0x1_0000_0000);
    FetchMem(t, 5, 0x15, n + 11);
  }

  lemma SuffixFetches(t: seq<Byte>, off: nat, stub: Word, back: Word)
    requires off + SUFFIX <= |t| && t[off..off + SUFFIX] == Suffix(8, stub, back)
    ensures Value(t[off + 6..off + 14]) == stub
    ensures GoesBack(t, off, back)
  {
    hide Suffix;
    hide Value;
    hide Bytes;
    hide Fetch;
    SuffixParts(8, stub, back);
    var s := t[off..off + SUFFIX];
    SliceOfSlice(t, off, SUFFIX, 2, 6);
    SliceOfSlice(t, off, SUFFIX, 6, 14);
    SliceOfSlice(t, off, SUFFIX, 14, 22);
    assert t[off] == s[0] && t[off + 1] == s[1];
    FetchMem(t, off, 0x25, 8);
    Imm64ReadsBack(stub);
    Imm64ReadsBack(back);
  }

  // The trampoline for a prologue at `at`, loaded at base.
  function Trampoline(id: Word, code: seq<Insn>, at: Word, stub: Word, base: Word): Option<seq<Byte>>
    requires forall i | i in code :: Decoded(i)
  {
    var body := RelocateAll(code, at, base + PREFIX);
    if stub == 0 || base == 0 || TotalSize(code) == 0 || TotalSize(code) > ORIG_CODE_MAX || body.None? then None
    else Some(Laid(id, body.value, stub, Wrap(at + TotalSize(code))))
  }

  /** Every accepted prologue: the trampoline calls the entry stub with the probe id pushed,
      then does what the prologue does, and goes on behind it or at the jump's target,
      exactly if the first branch taken or call made does not land inside the prologue. */
  lemma TrampolineBehaves(id: Word, code: seq<Insn>, at: Word, stub: Word, base: Word, cpu: Cpu)
    requires (forall i | i in code :: Decoded(i)) && Trampoline(id, code, at, stub, base).Some?
    ensures var t := Trampoline(id, code, at, stub, base).value;
            && |t| <= 512
            && Fetch(t, 0).0 == PushImm(Signed32(id % 0x1_0000_0000))
            && (Fetch(t, 0).0 == PushImm(id) <==> id < 0x8000_0000)
            && Fetch(t, 5).0.CallMem? && 0 <= 11 + Fetch(t, 5).0.disp && 11 + Fetch(t, 5).0.disp + 8 <= |t|
            && Value(t[11 + Fetch(t, 5).0.disp..11 + Fetch(t, 5).0.disp + 8]) == stub
            && Fetch(t, 11).0.DropOne?
            && RunCopy(code, t, PREFIX, base, cpu) == ThroughR11(RunLeaving(code, at, cpu))
            && (RunCopy(code, t, PREFIX, base, cpu) == ThroughR11(RunOriginal(code, at, at, TotalSize(code), cpu)) <==>
                  !TurnsInside(code, at, at, TotalSize(code), cpu))
  {
    hide Fetch;
    hide RunCopy;
    hide RunLeaving;
    hide RelocateAll;
    hide GoesBack;
    hide Value;
    var body := RelocateAll(code, at, base + PREFIX).value;
    var back := Wrap(at + TotalSize(code));
    var t := Laid(id, body, stub, back);
    CopyIsShort(code, at, base + PREFIX);
    LaidParts(id, body, stub, back);
    LiteralsResolve(id, body, stub, back);
    hide Laid;
    CopyBehaves(code, at, t, PREFIX, base, cpu, body);
    LeavingExactlyIf(code, at, at, TotalSize(code), cpu);
    OriginalNeverLeavesInto(code, at, at, TotalSize(code), cpu);
    hide RunOriginal;
    hide TurnsInside;
    hide Inside;
  }

  /** A branch to an overwritten byte: the copy leaves for it, while the original stays in
      the prologue or goes on at the instruction there. */
  lemma TakenBranchInside(code: seq<Insn>, at: int, lo: int, size: nat, cpu: Cpu)
    requires code != [] && BranchesInside(code[0], lo, size) && !code[0].Call? && (code[0].JumpIf? ==> Taken(code[0].jcc, cpu.flags))
    ensures RunLeaving(code, at, cpu) == Exits(code[0].target, true, cpu)
    ensures var j := Later(code, at, code[0].target);
            RunOriginal(code, at, lo, size, cpu) ==
              if j < |code| then RunOriginal(code[j..], at + TotalSize(code[..j]), lo, size, cpu) else Stays(code[0].target, cpu)
  {
  }

  // je over a one-byte instruction to a fourteen-byte one.
  function Hop(at: Word, skipped: Cpu -> Effect, last: Cpu -> Effect): seq<Insn> {
    [JumpIf(2, JE, Wrap(at + 3)), Plain([0x90], skipped), Plain(seq(14, _ => 0x90), last)]
  }

  /** So the condition on branches is needed: here the original goes on behind the prologue,
      and the accepted copy leaves for its third byte. */
  lemma BranchInsideDiffers(id: Word, at: Word, stub: Word, base: Word, cpu: Cpu)
    requires cpu.flags.zero && stub != 0 && base != 0
    ensures var code := Hop(at, c => Falls(c), c => Falls(c));
            && (forall i | i in code :: Decoded(i)) && TotalSize(code) == 17
            && Trampoline(id, code, at, stub, base).Some?
            && RunOriginal(code, at, at, 17, cpu) == Exits(Wrap(at + 17), false, cpu)
            && RunCopy(code, Trampoline(id, code, at, stub, base).value, PREFIX, base, cpu).Exits?
            && RunCopy(code, Trampoline(id, code, at, stub, base).value, PREFIX, base, cpu).target == Wrap(at + 3)
            && Wrap(at + 3) != Wrap(at + 17)
  {
    var code := Hop(at, c => Falls(c), c => Falls(c));
    HopIsAccepted(at, base + PREFIX, c => Falls(c), c => Falls(c));
    HopRunsOn(at, cpu, c => Falls(c), c => Falls(c));
    assert code[0].JumpIf?;
    hide Hop;
    hide RunCopy;
    hide RunOriginal;
    hide RelocateAll;
    TrampolineBehaves(id, code, at, stub, base, cpu);
    TakenBranchInside(code, at, at, 17, cpu);
  }

  lemma HopIsAccepted(at: Word, to: int, skipped: Cpu -> Effect, last: Cpu -> Effect)
    ensures var code := Hop(at, skipped, last);
            (forall i | i in code :: Decoded(i)) && TotalSize(code) == 17 && RelocateAll(code, at, to).Some?
  {
    var code := Hop(at, skipped, last);
    assert code[1..][1..] == [code[2]] && code[1..][1..][1..] == [];
    assert TotalSize([code[2]]) == 14;
    assert TotalSize(code[1..]) == 15;
    hide AbsJump;
    assert RelocateAll([], at + 17, to + 30) == Some([]);
    assert RelocateAll([code[2]], at + 3, to + 16).Some?;
    assert RelocateAll(code[1..], at + 2, to + 15).Some?;
    assert |Relocate(code[0], at, to).value| == 15;
  }

  lemma HopRunsOn(at: Word, cpu: Cpu, skipped: Cpu -> Effect, last: Cpu -> Effect)
    requires cpu.flags.zero && last(cpu) == Falls(cpu)
    ensures RunOriginal(Hop(at, skipped, last), at, at, 17, cpu) == Exits(Wrap(at + 17), false, cpu)
    ensures BranchesInside(Hop(at, skipped, last)[0], at, 17) && Wrap(at + 3) != Wrap(at + 17)
  {
    var code := Hop(at, skipped, last);
    assert Wrap(Wrap(at + 3) - at) == 3;
    assert code[1..][1..] == [code[2]] && code[..2] == [code[0], code[1]] && code[2..] == [code[2]];
    assert TotalSize([code[1]]) == 1 && [code[0], code[1]][1..] == [code[1]];
    assert TotalSize(code[..2]) == 3;
    assert Wrap(at + 2) != Wrap(at + 3);
    assert Later(code[1..], at + 2, Wrap(at + 3)) == 1;
    assert Later(code, at, Wrap(at + 3)) == 2;
    assert RunOriginal([], at + 17, at, 17, cpu) == Exits(Wrap(at + 17), false, cpu);
    assert RunOriginal([code[2]], at + 3, at, 17, cpu) == Exits(Wrap(at + 17), false, cpu);
  }

  // call to the next instruction, which is copied as it is.
  function CallNext(at: Word, effect: Cpu -> Effect): seq<Insn> {
    [Call(5, Wrap(at + 5)), Plain(seq(10, _ => 0x90), effect)]
  }

  /** The same with a call: the original calls an instruction of its own prologue, the
      accepted copy calls the sixth byte of what the patch overwrites. */
  lemma CallInsideDiffers(id: Word, at: Word, stub: Word, base: Word, cpu: Cpu)
    requires stub != 0 && base != 0
    ensures var code := CallNext(at, c => Falls(c));
            && (forall i | i in code :: Decoded(i)) && TotalSize(code) == 15
            && Trampoline(id, code, at, stub, base).Some?
            && RunOriginal(code, at, at, 15, cpu) == CallsInside(Wrap(at + 5))
            && RunCopy(code, Trampoline(id, code, at, stub, base).value, PREFIX, base, cpu) == Calls(Wrap(at + 5))
  {
    var code := CallNext(at, c => Falls(c));
    CallNextIsAccepted(at, base + PREFIX, c => Falls(c));
    assert Wrap(Wrap(at + 5) - at) == 5;
    assert RunOriginal(code, at, at, 15, cpu) == CallsInside(Wrap(at + 5));
    assert RunLeaving(code, at, cpu) == Calls(Wrap(at + 5));
    hide CallNext;
    hide RunCopy;
    hide RunOriginal;
    hide RelocateAll;
    TrampolineBehaves(id, code, at, stub, base, cpu);
  }

  lemma CallNextIsAccepted(at: Word, to: int, effect: Cpu -> Effect)
    ensures var code := CallNext(at, effect);
            (forall i | i in code :: Decoded(i)) && TotalSize(code) == 15 && RelocateAll(code, at, to).Some?
  {
    var code := CallNext(at, effect);
    assert code[1..] == [code[1]] && [code[1]][1..] == [];
    assert TotalSize([code[1]]) == 10;
    hide AbsCall;
    assert RelocateAll([], at + 15, to + 27) == Some([]);
    assert RelocateAll([code[1]], at + 5, to + 17).Some?;
    assert |Relocate(code[0], at, to).value| == 17;
  }

  /** The copy of every instruction, not only the first: from instruction k on it behaves as
      the rest of the prologue does in any state. So it does after a call has returned,
      where the copy first takes back the pushed r11. */
  lemma {:induction false} CopyBehavesFrom(code: seq<Insn>, at: int, t: seq<Byte>, off: nat, base: int, cpu: Cpu, bytes: seq<Byte>, k: nat)
    returns (off': nat)
    requires (forall i | i in code :: Decoded(i)) && RelocateAll(code, at, base + off) == Some(bytes) && k <= |code|
    requires off + |bytes| <= |t| && t[off..off + |bytes|] == bytes
    requires GoesBack(t, off + |bytes|, Wrap(at + TotalSize(code)))
    ensures off <= off' <= |t| && RunCopy(code[k..], t, off', base, cpu) == ThroughR11(RunLeaving(code[k..], at + TotalSize(code[..k]), cpu))
    ensures k == 0 ==> off' == off
    ensures k > 0 && code[k - 1].Call? ==> off' >= 2 && Fetch(t, off' - 2) == (PopR11, 2)
    decreases k
  {
    hide Relocate;
    hide RunCopy;
    hide RunLeaving;
    hide RelocateAll;
    hide GoesBack;
    hide Fetch;
    hide TotalSize;
    hide Size;
    hide ThroughR11;
    TotalFirst(code);
    if k == 0 {
      CopyBehaves(code, at, t, off, base, cpu, bytes);
      return off;
    }
    Pieces(code, at, base + off, bytes);
    var piece := Relocate(code[0], at, base + off).value;
    SliceOfSlice(t, off, |bytes|, 0, |piece|);
    SliceOfSlice(t, off, |bytes|, |piece|, |bytes|);
    assert bytes[|piece|..] == bytes[|piece|..|bytes|];
    SplitAt(code, k);
    if code[0].Call? {
      CallEnds(code[0], at, t, off, base, piece);
    }
    off' := CopyBehavesFrom(code[1..], at + Size(code[0]), t, off + |piece|, base, cpu, bytes[|piece|..], k - 1);
  }

  lemma TotalFirst(code: seq<Insn>)
    ensures code[..0] == [] && code[0..] == code && TotalSize(code[..0]) == 0
    ensures code != [] ==> TotalSize(code) == Size(code[0]) + TotalSize(code[1..])
  {
  }

  lemma SplitAt(code: seq<Insn>, k: nat)
    requires 0 < k <= |code|
    ensures code[1..][k - 1..] == code[k..] && TotalSize(code[..k]) == Size(code[0]) + TotalSize(code[1..][..k - 1])
    ensures k > 1 ==> code[1..][k - 2] == code[k - 1]
  {
    assert code[..k][1..] == code[1..][..k - 1];
  }

  // The copy of a call ends by taking r11 back.
  lemma CallEnds(i: Insn, at: int, t: seq<Byte>, off: nat, base: int, piece: seq<Byte>)
    requires Decoded(i) && i.Call? && Relocate(i, at, base + off) == Some(piece)
    requires off + |piece| <= |t| && t[off..off + |piece|] == piece
    ensures |piece| == 17 && Fetch(t, off + 15) == (PopR11, 2)
  {
    var imm := Bytes(8, i.target);
    hide Bytes;
    assert piece[15] == 0x41 && piece[16] == 0x5B;
    assert t[off + 15] == piece[15] && t[off + 16] == piece[16];
  }

  /** Relocation grows code at most eightfold, so any prologue of 32 bytes fits in 512. */
  lemma {:induction false} CopyIsShort(code: seq<Insn>, at: int, to: int)
    requires (forall i | i in code :: Decoded(i)) && RelocateAll(code, at, to).Some?
    ensures |RelocateAll(code, at, to).value| <= 8 * TotalSize(code)
  {
    if code != [] {
      var piece := Relocate(code[0], at, to).value;
      assert |piece| <= 8 * Size(code[0]) by {
        if code[0].RipRelative? {
          RebasedRefersAlike(code[0], at, to);
        }
      }
      hide Relocate;
      CopyIsShort(code[1..], at + Size(code[0]), to + |piece|);
    }
  }

  /** Which prologues are refused: those with a jump on the count register, and those with a
      RIP-relative operand that has no 32-bit displacement or lies too far from the copy. */
  lemma RefusedExactlyIf(i: Insn, at: int, to: int)
    requires Decoded(i)
    ensures Relocate(i, at, to).None? <==>
              || i.JumpCx?
              || (i.RipRelative? && (i.dispSize != 4 || TooFar(Refers(i.bytes, i.dispAt, at), to + |i.bytes|)))
  {
    if i.RipRelative? && i.dispSize == 4 {
      var target, next := Refers(i.bytes, i.dispAt, at), to + |i.bytes|;
      hide Refers;
      var disp := Signed64(Wrap(target - next));
      WrapCancels(target, next);
      assert Displaced(next, disp) == target;
      forall d | -0x8000_0000 <= d < 0x8000_0000 && Displaced(next, d) == target ensures d == disp {
        OnlyDisplacement(target, next, d);
      }
    }
  }

  function Displaced(next: int, d: int): Word {
    Wrap(next + d)
  }

  // No 32-bit displacement leads from `next` to the target.
  ghost predicate TooFar(target: Word, next: int) {
    forall d | -0x8000_0000 <= d < 0x8000_0000 :: Displaced(next, d) != target
  }

  lemma OnlyDisplacement(target: Word, next: int, d: int)
    requires Displaced(next, d) == target && -0x8000_0000 <= d < 0x8000_0000
    ensures Signed64(Wrap(target - next)) == d
  {
    var k := (next + d) / TWO64;
    assert target == next + d - k * TWO64;
    var low := if d < 0 then d + TWO64 else d;
    assert target - next == low + (if d < 0 then -k - 1 else -k) * TWO64;
    ModShift(low, if d < 0 then -k - 1 else -k);
  }
}

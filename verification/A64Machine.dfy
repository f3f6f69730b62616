/** A small A64 machine: enough of section C6.2 of the Arm Architecture Reference Manual
    (DDI 0487) to run a function prologue and the code that replaces it. Registers and
    addresses are 64-bit words; bit fields are written with division and remainder. */
module A64Machine {
  import opened Words

  type Reg = r: nat | r < 32
  type Cond = c: nat | c < 16

  // General registers by number; 31 is the zero register. `rest` stands for everything
  // else an instruction can touch: memory, SP, SIMD registers.
  datatype Machine = Machine(x: map<Reg, Word>, n: bool, z: bool, c: bool, v: bool, rest: int)

  function Get(m: Machine, r: Reg): Word {
    if r == 31 || r !in m.x then 0 else m.x[r]
  }

  function Set(m: Machine, r: Reg, value: Word): Machine {
    if r == 31 then m else m.(x := m.x[r := value])
  }

  // Branch offsets are signed instruction counts; hw counts 16-bit halfwords.
  datatype Insn =
    | MovZ(rd: Reg, imm: nat, hw: nat)
    | MovK(rd: Reg, imm: nat, hw: nat)
    | MovReg(rd: Reg, rm: Reg)
    | Adr(rd: Reg, page: bool, delta: int)
    | B(off: int)
    | Bl(off: int)
    | BCond(cond: Cond, off: int)
    | Cb(nonzero: bool, wide: bool, rt: Reg, off: int)
    | Tb(nonzero: bool, bit: nat, rt: Reg, off: int)
    | Br(rn: Reg)
    | Blr(rn: Reg)
    | Ret(rn: Reg)
    | LdrLiteral(word: nat)
    | Plain(word: nat)

  // What an instruction that does not read the pc does; any function will do.
  datatype Effect = Falls(m: Machine) | Jumps(addr: Word, m: Machine)
  type Semantics = (nat, Machine) -> Effect

  const K16: int := 0x1_0000
  const K32: int := 0x1_0000_0000
  const K48: int := 0x1_0000_0000_0000

  // Halfword hw of a word.
  function Half(value: Word, hw: nat): (h: nat)
    ensures h < K16
  {
    match hw
    case 0 => value % K16
    case 1 => value / K16 % K16
    case 2 => value / K32 % K16
    case _ => value / K48 % K16
  }

  // imm moved into halfword hw of an otherwise zero word.
  function Place(imm: nat, hw: nat): Word {
    match hw
    case 0 => Wrap(imm)
    case 1 => Wrap(imm * K16)
    case 2 => Wrap(imm * K32)
    case _ => Wrap(imm * K48)
  }

  // value with halfword hw replaced by imm.
  function Insert(value: Word, imm: nat, hw: nat): Word {
    match hw
    case 0 => Wrap(value - Half(value, 0) + imm)
    case 1 => Wrap(value + (imm - Half(value, 1)) * K16)
    case 2 => Wrap(value + (imm - Half(value, 2)) * K32)
    case _ => Wrap(value + (imm - Half(value, 3)) * K48)
  }

  // Section C1.2.4: bit 0 of the condition inverts the test, except for 1111.
  function Holds(cond: Cond, m: Machine): bool {
    var base :=
      match cond / 2 % 8
      case 0 => m.z
      case 1 => m.c
      case 2 => m.n
      case 3 => m.v
      case 4 => m.c && !m.z
      case 5 => m.n == m.v
      case 6 => m.n == m.v && !m.z
      case _ => true;
    if cond % 2 == 1 && cond != 15 then !base else base
  }

  function IsZero(value: Word, wide: bool): bool {
    if wide then value == 0 else value % K32 == 0
  }

  function Pow2(n: nat): nat {
    if n == 0 then 1 else 2 * Pow2(n - 1)
  }

  lemma {:induction false} Pow2Positive(n: nat)
    ensures Pow2(n) >= 1
  {
    if n > 0 {
      Pow2Positive(n - 1);
    }
  }

  function TestBit(value: Word, bit: nat): bool {
    Pow2Positive(bit);
    value / Pow2(bit) % 2 == 1
  }

  // The address of instruction i of code that starts at base.
  function Addr(base: Word, i: int): Word {
    Wrap(base + 4 * i)
  }

  // The operand the disassembler reports for a pc-relative instruction at pc.
  function Target(insn: Insn, pc: Word): Word {
    match insn
    case Adr(_, page, delta) => if page then Wrap(pc - pc % 0x1000 + delta * 0x1000) else Wrap(pc + delta)
    case B(off) => Addr(pc, off)
    case Bl(off) => Addr(pc, off)
    case BCond(_, off) => Addr(pc, off)
    case Cb(_, _, _, off) => Addr(pc, off)
    case Tb(_, _, _, off) => Addr(pc, off)
    case _ => 0
  }

  predicate IsBranch(insn: Insn) {
    insn.B? || insn.BCond? || insn.Cb? || insn.Tb?
  }

  function Taken(insn: Insn, m: Machine): bool {
    match insn
    case B(_) => true
    case BCond(cond, _) => Holds(cond, m)
    case Cb(nonzero, wide, rt, _) => IsZero(Get(m, rt), wide) != nonzero
    case Tb(nonzero, bit, rt, _) => TestBit(Get(m, rt), bit) == nonzero
    case _ => false
  }

  // The branch at i lands further down the same code.
  predicate Ahead(insn: Insn, i: nat, size: nat) {
    IsBranch(insn) && 0 < insn.off && i + insn.off < size
  }

  // It lands on itself or further up.
  predicate Back(insn: Insn, i: nat) {
    IsBranch(insn) && 0 <= i + insn.off <= i
  }

  // The branch or call at i lands on an instruction of the same code.
  predicate LandsInside(insn: Insn, i: nat, size: nat) {
    (IsBranch(insn) || insn.Bl?) && 0 <= i + insn.off < size
  }

  // How a stretch of code is left: by a jump, by a call that will come back to instruction
  // `resume`, or not at all but for going round again from instruction i or calling it.
  datatype Outcome =
    | Exit(addr: Word, m: Machine)
    | Call(addr: Word, resume: nat, m: Machine)
    | Again(i: nat, m: Machine)
    | CallIn(i: nat, resume: nat, m: Machine)

  datatype Step = Next(i: nat, m: Machine) | Leave(out: Outcome)

  function StepAt(code: seq<Insn>, base: Word, sem: Semantics, i: nat, m: Machine): (s: Step)
    requires i < |code|
    ensures s.Next? ==> i < s.i <= |code|
  {
    var insn := code[i];
    match insn
    case MovZ(rd, imm, hw) => Next(i + 1, Set(m, rd, Place(imm, hw)))
    case MovK(rd, imm, hw) => Next(i + 1, Set(m, rd, Insert(Get(m, rd), imm, hw)))
    case MovReg(rd, rm) => Next(i + 1, Set(m, rd, Get(m, rm)))
    case Adr(rd, _, _) => Next(i + 1, Set(m, rd, Target(insn, Addr(base, i))))
    case Bl(_) =>
      var linked := Set(m, 30, Addr(base, i + 1));
      if LandsInside(insn, i, |code|) then Leave(CallIn(i + insn.off, i + 1, linked))
      else Leave(Call(Target(insn, Addr(base, i)), i + 1, linked))
    case Br(rn) => Leave(Exit(Get(m, rn), m))
    case Ret(rn) => Leave(Exit(Get(m, rn), m))
    case Blr(rn) => Leave(Call(Get(m, rn), i + 1, Set(m, 30, Addr(base, i + 1))))
    case Plain(word) =>
      (match sem(word, m)
       case Falls(m') => Next(i + 1, m')
       case Jumps(addr, m') => Leave(Exit(addr, m')))
    case LdrLiteral(word) => Next(i + 1, m)
    case _ =>
      if !Taken(insn, m) then Next(i + 1, m)
      else if Ahead(insn, i, |code|) then Next(i + insn.off, m)
      else if Back(insn, i) then Leave(Again(i + insn.off, m))
      else Leave(Exit(Target(insn, Addr(base, i)), m))
  }

  // Runs until control leaves the code; falling off the end continues right behind it.
  function Run(code: seq<Insn>, base: Word, sem: Semantics, i: nat, m: Machine): Outcome
    requires i <= |code|
    decreases |code| - i
  {
    if i == |code| then Exit(Addr(base, i), m)
    else
      match StepAt(code, base, sem, i, m)
      case Leave(out) => out
      case Next(j, m') => Run(code, base, sem, j, m')
  }
}

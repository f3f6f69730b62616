/** Relocating a prologue: which instructions replace each original one, and why the
    replacement behaves the same from another address. */
module A64Relocation {
  import opened Words
  import opened A64Machine

  // MOVK is only emitted for non-zero halfwords.
  function MovKs(rd: Reg, value: Word, hw: nat): seq<Insn> {
    if Half(value, hw) == 0 then [] else [MovK(rd, Half(value, hw), hw)]
  }

  function MovAbs(rd: Reg, value: Word): (code: seq<Insn>)
    ensures 1 <= |code| <= 4
  {
    [MovZ(rd, Half(value, 0), 0)] + MovKs(rd, value, 1) + MovKs(rd, value, 2) + MovKs(rd, value, 3)
  }

  function AbsBranch(target: Word): seq<Insn> {
    MovAbs(16, target) + [Br(16)]
  }

  function AbsCall(target: Word): seq<Insn> {
    MovAbs(16, target) + [Blr(16)]
  }

  // The offset that skips an absolute branch to target: the skipping instruction itself,
  // the MOVs and the BR.
  function SkipWords(target: Word): (n: nat)
    ensures 3 <= n <= 6
  {
    1 + |MovAbs(16, target)| + 1
  }

  // Condition code with bit 0 flipped.
  function Inverse(cond: Cond): Cond {
    if cond % 2 == 0 then cond + 1 else cond - 1
  }

  datatype Code = Refused | Code(insns: seq<Insn>)

  // One original instruction, whose pc-relative operand is `target`. Conditions AL and NV
  // are always true and become plain branches.
  function Relocate(insn: Insn, target: Word): Code {
    match insn
    case Adr(rd, _, _) => Code(MovAbs(rd, target))
    case Bl(_) => Code(AbsCall(target))
    case B(_) => Code(AbsBranch(target))
    case BCond(cond, _) =>
      if cond < 14 then Code([BCond(Inverse(cond), SkipWords(target))] + AbsBranch(target))
      else Code(AbsBranch(target))
    case Cb(nonzero, wide, rt, _) => Code([Cb(!nonzero, wide, rt, SkipWords(target))] + AbsBranch(target))
    case Tb(nonzero, bit, rt, _) => Code([Tb(!nonzero, bit, rt, SkipWords(target))] + AbsBranch(target))
    case LdrLiteral(_) => Refused
    case _ => Code([insn])
  }

  // The instructions from i on, relocated one after the other.
  function RelocateFrom(orig: seq<Insn>, base: Word, i: nat): Code
    requires i <= |orig|
    decreases |orig| - i
  {
    if i == |orig| then Code([])
    else
      match Relocate(orig[i], Target(orig[i], Addr(base, i)))
      case Refused => Refused
      case Code(head) =>
        match RelocateFrom(orig, base, i + 1)
        case Refused => Refused
        case Code(tail) => Code(head + tail)
  }

  // ---------------------------------------------------------------------------
  // Running pieces of emitted code

  ghost predicate At(code: seq<Insn>, p: nat, piece: seq<Insn>) {
    p + |piece| <= |code| && code[p..p + |piece|] == piece
  }

  lemma AtSplit(code: seq<Insn>, p: nat, a: seq<Insn>, b: seq<Insn>)
    requires At(code, p, a + b)
    ensures At(code, p, a) && At(code, p + |a|, b)
  {
    var piece := code[p..p + |a + b|];
    assert code[p..p + |a|] == piece[..|a|] == a;
    assert code[p + |a|..p + |a| + |b|] == piece[|a|..] == b;
  }

  lemma AtHead(code: seq<Insn>, p: nat, insn: Insn, b: seq<Insn>)
    requires At(code, p, [insn] + b)
    ensures p < |code| && code[p] == insn && At(code, p + 1, b)
  {
    AtSplit(code, p, [insn], b);
    assert code[p] == code[p..p + 1][0];
  }

  lemma SetTwice(m: Machine, rd: Reg, a: Word, b: Word)
    ensures Set(Set(m, rd, a), rd, b) == Set(m, rd, b)
    ensures rd != 31 ==> Get(Set(m, rd, a), rd) == a
  {
    assert m.x[rd := a][rd := b] == m.x[rd := b];
  }

  // The value as far as halfwords 0 .. k - 1 have been loaded.
  function Loaded(value: Word, k: nat): Word {
    match k
    case 0 => 0
    case 1 => value % K16
    case 2 => value % K32
    case 3 => value % K48
    case _ => value
  }

  // The three ways to split off the next halfword.
  lemma SplitHalf1(value: Word)
    ensures value % K32 == value % K16 + value / K16 % K16 * K16
  {
  }

  lemma SplitHalf2(value: Word)
    ensures value % K48 == value % K32 + value / K32 % K16 * K32
  {
  }

  lemma SplitHalf3(value: Word)
    ensures value == value % K48 + value / K48 % K16 * K48
  {
  }

  // Halfword hw of a word that only has lower ones is zero.
  lemma LowerHalves(value: Word)
    ensures Half(value % K16, 1) == 0 && Half(value % K32, 2) == 0 && Half(value % K48, 3) == 0
  {
  }

  lemma LoadHalf(value: Word, hw: nat)
    requires 1 <= hw <= 3
    ensures Insert(Loaded(value, hw), Half(value, hw), hw) == Loaded(value, hw + 1)
    ensures Half(value, hw) == 0 ==> Loaded(value, hw) == Loaded(value, hw + 1)
  {
    LowerHalves(value);
    match hw
    case 1 => SplitHalf1(value);
    case 2 => SplitHalf2(value);
    case _ => SplitHalf3(value);
  }

  // One optional MOVK.
  lemma RunMovK(code: seq<Insn>, base: Word, sem: Semantics, p: nat, m: Machine, rd: Reg, value: Word, hw: nat)
    requires At(code, p, MovKs(rd, value, hw)) && 1 <= hw <= 3
    ensures Run(code, base, sem, p, Set(m, rd, Loaded(value, hw))) ==
            Run(code, base, sem, p + |MovKs(rd, value, hw)|, Set(m, rd, Loaded(value, hw + 1)))
  {
    LoadHalf(value, hw);
    if Half(value, hw) != 0 {
      AtHead(code, p, MovK(rd, Half(value, hw), hw), []);
      SetTwice(m, rd, Loaded(value, hw), Loaded(value, hw + 1));
    }
  }

  lemma RunMovZ(code: seq<Insn>, base: Word, sem: Semantics, p: nat, m: Machine, rd: Reg, value: Word)
    requires p < |code| && code[p] == MovZ(rd, Half(value, 0), 0)
    ensures Run(code, base, sem, p, m) == Run(code, base, sem, p + 1, Set(m, rd, Loaded(value, 1)))
  {
  }

  lemma MovAbsLayout(code: seq<Insn>, p: nat, rd: Reg, value: Word)
    requires At(code, p, MovAbs(rd, value))
    ensures p < |code| && code[p] == MovZ(rd, Half(value, 0), 0)
    ensures var q1 := p + 1;
            var q2 := q1 + |MovKs(rd, value, 1)|;
            var q3 := q2 + |MovKs(rd, value, 2)|;
            && At(code, q1, MovKs(rd, value, 1)) && At(code, q2, MovKs(rd, value, 2)) && At(code, q3, MovKs(rd, value, 3))
            && q3 + |MovKs(rd, value, 3)| == p + |MovAbs(rd, value)|
  {
    hide Half;
    hide MovKs;
    var k1, k2, k3 := MovKs(rd, value, 1), MovKs(rd, value, 2), MovKs(rd, value, 3);
    var z := MovZ(rd, Half(value, 0), 0);
    assert MovAbs(rd, value) == [z] + (k1 + (k2 + k3));
    AtHead(code, p, z, k1 + (k2 + k3));
    AtSplit(code, p + 1, k1, k2 + k3);
    AtSplit(code, p + 1 + |k1|, k2, k3);
  }

  /** The MOVZ/MOVK chain loads exactly the value, whatever the register held. */
  lemma RunMovAbs(code: seq<Insn>, base: Word, sem: Semantics, p: nat, m: Machine, rd: Reg, value: Word)
    requires At(code, p, MovAbs(rd, value))
    ensures Run(code, base, sem, p, m) == Run(code, base, sem, p + |MovAbs(rd, value)|, Set(m, rd, value))
  {
    hide Run;
    hide MovAbs;
    hide MovKs;
    hide Half;
    hide Loaded;
    MovAbsLayout(code, p, rd, value);
    RunMovZ(code, base, sem, p, m, rd, value);
    var q1 := p + 1;
    var q2 := q1 + |MovKs(rd, value, 1)|;
    var q3 := q2 + |MovKs(rd, value, 2)|;
    RunMovK(code, base, sem, q1, m, rd, value, 1);
    RunMovK(code, base, sem, q2, m, rd, value, 2);
    RunMovK(code, base, sem, q3, m, rd, value, 3);
    LoadedAll(value);
  }

  lemma LoadedAll(value: Word)
    ensures Loaded(value, 4) == value
  {
  }

  lemma RunBr(code: seq<Insn>, base: Word, sem: Semantics, p: nat, m: Machine)
    requires p < |code| && code[p] == Br(16)
    ensures Run(code, base, sem, p, m) == Exit(Get(m, 16), m)
  {
  }

  lemma RunBlr(code: seq<Insn>, base: Word, sem: Semantics, p: nat, m: Machine)
    requires p < |code| && code[p] == Blr(16)
    ensures Run(code, base, sem, p, m) == Call(Get(m, 16), p + 1, Set(m, 30, Addr(base, p + 1)))
  {
  }

  lemma RunAbsBranch(code: seq<Insn>, base: Word, sem: Semantics, p: nat, m: Machine, target: Word)
    requires At(code, p, AbsBranch(target))
    ensures Run(code, base, sem, p, m) == Exit(target, Set(m, 16, target))
  {
    hide Run;
    hide MovAbs;
    var q := p + |MovAbs(16, target)|;
    AtSplit(code, p, MovAbs(16, target), [Br(16)]);
    AtHead(code, q, Br(16), []);
    RunMovAbs(code, base, sem, p, m, 16, target);
    RunBr(code, base, sem, q, Set(m, 16, target));
  }

  lemma RunAbsCall(code: seq<Insn>, base: Word, sem: Semantics, p: nat, m: Machine, target: Word)
    requires At(code, p, AbsCall(target))
    ensures var q := p + |AbsCall(target)|;
            Run(code, base, sem, p, m) == Call(target, q, Set(Set(m, 16, target), 30, Addr(base, q)))
  {
    hide Run;
    hide MovAbs;
    var q := p + |MovAbs(16, target)|;
    AtSplit(code, p, MovAbs(16, target), [Blr(16)]);
    AtHead(code, q, Blr(16), []);
    RunMovAbs(code, base, sem, p, m, 16, target);
    RunBlr(code, base, sem, q, Set(m, 16, target));
  }

  // ---------------------------------------------------------------------------
  // The simulation

  ghost predicate SameBut(a: Machine, b: Machine, regs: set<Reg>) {
    && a.n == b.n && a.z == b.z && a.c == b.c && a.v == b.v && a.rest == b.rest
    && forall r: Reg :: r !in regs ==> Get(a, r) == Get(b, r)
  }

  // Position p of the new code is where the original instruction i continues.
  ghost predicate Follows(code: seq<Insn>, p: nat, orig: seq<Insn>, from: Word, i: nat) {
    && i <= |orig| && p <= |code|
    && RelocateFrom(orig, from, i).Code?
    && code[p..] == RelocateFrom(orig, from, i).insns + AbsBranch(Addr(from, |orig|))
  }

  // Same way out: the same address with the same registers and flags, x16 aside; a call
  // links to the place where the next original instruction continues.
  ghost predicate SameWayOut(new_: Outcome, old_: Outcome, code: seq<Insn>, base: Word, orig: seq<Insn>, from: Word) {
    match old_
    case Exit(addr, m) => new_.Exit? && new_.addr == addr && SameBut(new_.m, m, {16})
    case Call(addr, resume, m) =>
      && new_.Call? && new_.addr == addr && SameBut(new_.m, m, {16, 30})
      && Follows(code, new_.resume, orig, from, resume)
      && Get(m, 30) == Addr(from, resume) && Get(new_.m, 30) == Addr(base, new_.resume)
    case Again(_, _) => false
    case CallIn(_, _, _) => false
  }

  // No branch or call lands on one of the overwritten instructions.
  ghost predicate BranchesLeave(orig: seq<Insn>) {
    forall i | 0 <= i < |orig| :: !LandsInside(orig[i], i, |orig|)
  }

  // Control goes where the instruction says.
  predicate Turns(insn: Insn, m: Machine) {
    (IsBranch(insn) && Taken(insn, m)) || insn.Bl?
  }

  predicate TurnsAway(orig: seq<Insn>, i: nat, m: Machine)
    requires i < |orig|
  {
    Turns(orig[i], m) ==> !LandsInside(orig[i], i, |orig|)
  }

  // Running on from i, the first branch taken or call made lands on an overwritten
  // instruction.
  predicate TurnsInside(orig: seq<Insn>, from: Word, sem: Semantics, i: nat, m: Machine)
    requires i <= |orig|
    decreases |orig| - i
  {
    i < |orig| &&
    if Turns(orig[i], m) then LandsInside(orig[i], i, |orig|)
    else
      match StepAt(orig, from, sem, i, m)
      case Leave(_) => false
      case Next(j, m') => TurnsInside(orig, from, sem, j, m')
  }

  lemma FollowsHead(code: seq<Insn>, p: nat, orig: seq<Insn>, from: Word, i: nat) returns (head: seq<Insn>)
    requires Follows(code, p, orig, from, i) && i < |orig|
    ensures Relocate(orig[i], Target(orig[i], Addr(from, i))) == Code(head)
    ensures At(code, p, head) && Follows(code, p + |head|, orig, from, i + 1)
    ensures p + |head| < |code|
  {
    head := Relocate(orig[i], Target(orig[i], Addr(from, i))).insns;
    var tail := RelocateFrom(orig, from, i + 1).insns + AbsBranch(Addr(from, |orig|));
    assert code[p..] == head + tail;
    assert code[p..p + |head|] == code[p..][..|head|];
    assert code[p + |head|..] == code[p..][|head|..];
  }

  lemma InverseCondition(cond: Cond, m: Machine)
    requires cond < 14
    ensures Holds(Inverse(cond), m) == !Holds(cond, m)
  {
  }

  // A conditional branch: the inverted one skips the absolute jump when not taken.
  lemma RunSkip(code: seq<Insn>, base: Word, sem: Semantics, p: nat, m: Machine, skip: Insn, target: Word, taken: bool)
    requires At(code, p, [skip] + AbsBranch(target)) && p + 1 + |AbsBranch(target)| < |code|
    requires (skip.BCond? || skip.Cb? || skip.Tb?) && skip.off == SkipWords(target)
    requires Taken(skip, m) == !taken
    ensures Run(code, base, sem, p, m) ==
            if taken then Exit(target, Set(m, 16, target))
            else Run(code, base, sem, p + 1 + |AbsBranch(target)|, m)
  {
    AtHead(code, p, skip, AbsBranch(target));
    if taken {
      RunAbsBranch(code, base, sem, p + 1, m, target);
    } else {
      assert Ahead(skip, p, |code|);
    }
  }

  // One original instruction against its replacement: both leave the same way, or both go
  // on in the same state at corresponding places.
  ghost predicate InStep(code: seq<Insn>, base: Word, p: nat, q: nat, orig: seq<Insn>, from: Word, i: nat,
                         sem: Semantics, m: Machine, m': Machine, left: bool)
  {
    && i < |orig| && p <= |code|
    && if left then
         SameWayOut(Run(code, base, sem, p, m), Run(orig, from, sem, i, m), code, base, orig, from)
       else
         && Follows(code, q, orig, from, i + 1)
         && Run(code, base, sem, p, m) == Run(code, base, sem, q, m')
         && StepAt(orig, from, sem, i, m) == Next(i + 1, m')
         && Run(orig, from, sem, i, m) == Run(orig, from, sem, i + 1, m')
  }

  lemma OneRegister(m: Machine, r: Reg, value: Word)
    ensures SameBut(Set(m, r, value), m, {r})
  {
  }

  lemma ExitsAlike(code: seq<Insn>, base: Word, p: nat, orig: seq<Insn>, from: Word, i: nat, sem: Semantics, m: Machine, target: Word)
    requires i <= |orig| && p <= |code|
    requires Run(code, base, sem, p, m) == Exit(target, Set(m, 16, target))
    requires Run(orig, from, sem, i, m) == Exit(target, m)
    ensures SameWayOut(Run(code, base, sem, p, m), Run(orig, from, sem, i, m), code, base, orig, from)
  {
    hide Run;
    OneRegister(m, 16, target);
  }

  lemma RunBranch(orig: seq<Insn>, from: Word, sem: Semantics, i: nat, m: Machine)
    requires i < |orig| && TurnsAway(orig, i, m) && IsBranch(orig[i])
    ensures Run(orig, from, sem, i, m) ==
            if Taken(orig[i], m) then Exit(Target(orig[i], Addr(from, i)), m) else Run(orig, from, sem, i + 1, m)
    ensures StepAt(orig, from, sem, i, m).Leave? <==> Taken(orig[i], m)
    ensures !Taken(orig[i], m) ==> StepAt(orig, from, sem, i, m) == Next(i + 1, m)
  {
  }

  // The inverted branch is taken exactly when the original is not.
  lemma Inverted(insn: Insn, m: Machine, target: Word) returns (skip: Insn)
    requires (insn.BCond? && insn.cond < 14) || insn.Cb? || insn.Tb?
    ensures Relocate(insn, target) == Code([skip] + AbsBranch(target))
    ensures (skip.BCond? || skip.Cb? || skip.Tb?) && skip.off == SkipWords(target)
    ensures Taken(skip, m) == !Taken(insn, m)
  {
    match insn
    case BCond(cond, _) =>
      InverseCondition(cond, m);
      skip := BCond(Inverse(cond), SkipWords(target));
    case Cb(nonzero, wide, rt, _) => skip := Cb(!nonzero, wide, rt, SkipWords(target));
    case Tb(nonzero, bit, rt, _) => skip := Tb(!nonzero, bit, rt, SkipWords(target));
  }

  lemma StepAlways(code: seq<Insn>, base: Word, p: nat, orig: seq<Insn>, from: Word, i: nat, sem: Semantics, m: Machine)
    requires i < |orig| && TurnsAway(orig, i, m) && (orig[i].B? || (orig[i].BCond? && orig[i].cond >= 14))
    requires At(code, p, AbsBranch(Target(orig[i], Addr(from, i))))
    ensures InStep(code, base, p, p + |AbsBranch(Target(orig[i], Addr(from, i)))|, orig, from, i, sem, m, m, true)
  {
    hide Run;
    hide SameWayOut;
    var target := Target(orig[i], Addr(from, i));
    RunBranch(orig, from, sem, i, m);
    RunAbsBranch(code, base, sem, p, m, target);
    ExitsAlike(code, base, p, orig, from, i, sem, m, target);
  }

  lemma StepConditional(code: seq<Insn>, base: Word, p: nat, orig: seq<Insn>, from: Word, i: nat, sem: Semantics, m: Machine, head: seq<Insn>)
    requires i < |orig| && TurnsAway(orig, i, m)
    requires (orig[i].BCond? && orig[i].cond < 14) || orig[i].Cb? || orig[i].Tb?
    requires Relocate(orig[i], Target(orig[i], Addr(from, i))) == Code(head)
    requires At(code, p, head) && p + |head| < |code| && Follows(code, p + |head|, orig, from, i + 1)
    ensures InStep(code, base, p, p + |head|, orig, from, i, sem, m, m, Taken(orig[i], m))
  {
    hide Run;
    hide SameWayOut;
    hide Taken;
    hide Follows;
    var target := Target(orig[i], Addr(from, i));
    RunBranch(orig, from, sem, i, m);
    var skip := Inverted(orig[i], m, target);
    RunSkip(code, base, sem, p, m, skip, target, Taken(orig[i], m));
    if Taken(orig[i], m) {
      ExitsAlike(code, base, p, orig, from, i, sem, m, target);
    }
  }

  lemma RunAdr(orig: seq<Insn>, from: Word, sem: Semantics, i: nat, m: Machine, target: Word)
    requires i < |orig| && orig[i].Adr? && target == Target(orig[i], Addr(from, i))
    ensures Run(orig, from, sem, i, m) == Run(orig, from, sem, i + 1, Set(m, orig[i].rd, target))
    ensures StepAt(orig, from, sem, i, m) == Next(i + 1, Set(m, orig[i].rd, target))
  {
  }

  lemma StepAdr(code: seq<Insn>, base: Word, p: nat, q: nat, orig: seq<Insn>, from: Word, i: nat, sem: Semantics, m: Machine, target: Word)
    requires i < |orig| && orig[i].Adr? && target == Target(orig[i], Addr(from, i))
    requires At(code, p, MovAbs(orig[i].rd, target)) && q == p + |MovAbs(orig[i].rd, target)|
    requires Follows(code, q, orig, from, i + 1)
    ensures InStep(code, base, p, q, orig, from, i, sem, m, Set(m, orig[i].rd, target), false)
  {
    hide Run;
    hide MovAbs;
    hide Follows;
    RunMovAbs(code, base, sem, p, m, orig[i].rd, target);
    RunAdr(orig, from, sem, i, m, target);
  }

  lemma RunBl(orig: seq<Insn>, from: Word, sem: Semantics, i: nat, m: Machine, target: Word)
    requires i < |orig| && orig[i].Bl? && TurnsAway(orig, i, m) && target == Target(orig[i], Addr(from, i))
    ensures Run(orig, from, sem, i, m) == Call(target, i + 1, Set(m, 30, Addr(from, i + 1)))
    ensures StepAt(orig, from, sem, i, m).Leave?
  {
  }

  // x16 and the link register differ after a relocated call.
  lemma StepCall(code: seq<Insn>, base: Word, p: nat, orig: seq<Insn>, from: Word, i: nat, sem: Semantics, m: Machine)
    requires i < |orig| && orig[i].Bl? && TurnsAway(orig, i, m)
    requires var piece := AbsCall(Target(orig[i], Addr(from, i)));
             At(code, p, piece) && Follows(code, p + |piece|, orig, from, i + 1)
    ensures InStep(code, base, p, p + |AbsCall(Target(orig[i], Addr(from, i)))|, orig, from, i, sem, m, m, true)
  {
    hide Run;
    hide AbsCall;
    hide Follows;
    hide SameBut;
    var target := Target(orig[i], Addr(from, i));
    var q := p + |AbsCall(target)|;
    RunAbsCall(code, base, sem, p, m, target);
    CallsAlike(m, target, Addr(base, q), Addr(from, i + 1));
    RunBl(orig, from, sem, i, m, target);
  }

  lemma CallsAlike(m: Machine, target: Word, link: Word, origLink: Word)
    ensures SameBut(Set(Set(m, 16, target), 30, link), Set(m, 30, origLink), {16, 30})
    ensures Get(Set(Set(m, 16, target), 30, link), 30) == link && Get(Set(m, 30, origLink), 30) == origLink
  {
  }

  lemma LinksAlike(m: Machine, link: Word, origLink: Word)
    ensures SameBut(Set(m, 30, link), Set(m, 30, origLink), {16, 30})
    ensures Get(Set(m, 30, link), 30) == link && Get(Set(m, 30, origLink), 30) == origLink
  {
  }

  // Instructions copied as they are do not read the pc, except for BLR's link.
  lemma StepCopy(code: seq<Insn>, base: Word, p: nat, orig: seq<Insn>, from: Word, i: nat, sem: Semantics, m: Machine)
    returns (m': Machine, left: bool)
    requires i < |orig| && !IsBranch(orig[i]) && !orig[i].Adr? && !orig[i].Bl? && !orig[i].LdrLiteral?
    requires At(code, p, [orig[i]]) && Follows(code, p + 1, orig, from, i + 1)
    ensures InStep(code, base, p, p + 1, orig, from, i, sem, m, m', left)
    ensures left <==> StepAt(orig, from, sem, i, m).Leave?
  {
    AtHead(code, p, orig[i], []);
    LinksAlike(m, Addr(base, p + 1), Addr(from, i + 1));
    var step := StepAt(orig, from, sem, i, m);
    left := step.Leave?;
    m' := if left then m else step.m;
  }

  lemma AlwaysTaken(insn: Insn, m: Machine)
    requires insn.B? || (insn.BCond? && insn.cond >= 14)
    ensures Taken(insn, m)
  {
  }

  lemma StepBranch(code: seq<Insn>, base: Word, p: nat, orig: seq<Insn>, from: Word, i: nat, sem: Semantics, m: Machine, head: seq<Insn>)
    requires i < |orig| && TurnsAway(orig, i, m) && IsBranch(orig[i])
    requires Relocate(orig[i], Target(orig[i], Addr(from, i))) == Code(head)
    requires At(code, p, head) && p + |head| < |code| && Follows(code, p + |head|, orig, from, i + 1)
    ensures InStep(code, base, p, p + |head|, orig, from, i, sem, m, m, Taken(orig[i], m))
  {
    hide Run;
    hide InStep;
    hide Follows;
    hide Taken;
    hide AbsBranch;
    if orig[i].B? || (orig[i].BCond? && orig[i].cond >= 14) {
      AlwaysTaken(orig[i], m);
      StepAlways(code, base, p, orig, from, i, sem, m);
    } else {
      StepConditional(code, base, p, orig, from, i, sem, m, head);
    }
  }

  lemma StepAny(code: seq<Insn>, base: Word, p: nat, orig: seq<Insn>, from: Word, i: nat, sem: Semantics, m: Machine)
    returns (q: nat, m': Machine, left: bool)
    requires Follows(code, p, orig, from, i) && i < |orig| && TurnsAway(orig, i, m)
    ensures InStep(code, base, p, q, orig, from, i, sem, m, m', left)
    ensures left <==> StepAt(orig, from, sem, i, m).Leave?
  {
    hide Run;
    hide InStep;
    var head := FollowsHead(code, p, orig, from, i);
    q := p + |head|;
    if IsBranch(orig[i]) {
      m', left := m, Taken(orig[i], m);
      StepBranch(code, base, p, orig, from, i, sem, m, head);
      RunBranch(orig, from, sem, i, m);
    } else {
      m', left := StepStraight(code, base, p, orig, from, i, sem, m, head);
    }
  }

  lemma StepStraight(code: seq<Insn>, base: Word, p: nat, orig: seq<Insn>, from: Word, i: nat, sem: Semantics, m: Machine, head: seq<Insn>)
    returns (m': Machine, left: bool)
    requires i < |orig| && !IsBranch(orig[i]) && TurnsAway(orig, i, m)
    requires Relocate(orig[i], Target(orig[i], Addr(from, i))) == Code(head)
    requires At(code, p, head) && Follows(code, p + |head|, orig, from, i + 1)
    ensures InStep(code, base, p, p + |head|, orig, from, i, sem, m, m', left)
    ensures left <==> StepAt(orig, from, sem, i, m).Leave?
  {
    hide Run;
    hide InStep;
    hide Follows;
    var target := Target(orig[i], Addr(from, i));
    if orig[i].Adr? {
      m', left := Set(m, orig[i].rd, target), false;
      StepAdr(code, base, p, p + |head|, orig, from, i, sem, m, target);
      RunAdr(orig, from, sem, i, m, target);
    } else if orig[i].Bl? {
      m', left := m, true;
      StepCall(code, base, p, orig, from, i, sem, m);
      RunBl(orig, from, sem, i, m, target);
    } else {
      m', left := StepCopy(code, base, p, orig, from, i, sem, m);
    }
  }

  /** From any original instruction and in any state, the relocated code leaves the same
      way as the original, if the first branch the original takes or call it makes does not
      land inside: same target, same registers and flags, x16 aside. */
  lemma {:induction false} Simulates(code: seq<Insn>, base: Word, p: nat, orig: seq<Insn>, from: Word, i: nat, sem: Semantics, m: Machine)
    requires Follows(code, p, orig, from, i) && !TurnsInside(orig, from, sem, i, m)
    ensures SameWayOut(Run(code, base, sem, p, m), Run(orig, from, sem, i, m), code, base, orig, from)
    decreases |orig| - i
  {
    hide SameWayOut;
    hide Run;
    if i == |orig| {
      SimulatesEnd(code, base, p, orig, from, sem, m);
    } else {
      var q, m', left := StepAny(code, base, p, orig, from, i, sem, m);
      if !left {
        TurnsLater(orig, from, sem, i, m, m');
        Simulates(code, base, q, orig, from, i + 1, sem, m');
      }
    }
  }

  lemma SimulatesEnd(code: seq<Insn>, base: Word, p: nat, orig: seq<Insn>, from: Word, sem: Semantics, m: Machine)
    requires Follows(code, p, orig, from, |orig|)
    ensures SameWayOut(Run(code, base, sem, p, m), Run(orig, from, sem, |orig|, m), code, base, orig, from)
  {
    hide SameWayOut;
    assert code[p..] == AbsBranch(Addr(from, |orig|));
    RunAbsBranch(code, base, sem, p, m, Addr(from, |orig|));
    ExitsAlike(code, base, p, orig, from, |orig|, sem, m, Addr(from, |orig|));
  }

  // Passing an instruction does not change where the run turns.
  lemma TurnsLater(orig: seq<Insn>, from: Word, sem: Semantics, i: nat, m: Machine, m': Machine)
    requires i < |orig| && StepAt(orig, from, sem, i, m) == Next(i + 1, m') && TurnsAway(orig, i, m)
    ensures TurnsInside(orig, from, sem, i, m) <==> TurnsInside(orig, from, sem, i + 1, m')
  {
    hide Taken;
  }

  /* Why branches must leave: the copy follows them to the overwritten place. */

  lemma CopyOfTakenBranch(code: seq<Insn>, base: Word, p: nat, orig: seq<Insn>, from: Word, i: nat, sem: Semantics, m: Machine)
    requires Follows(code, p, orig, from, i) && i < |orig| && IsBranch(orig[i]) && Taken(orig[i], m)
    ensures var target := Target(orig[i], Addr(from, i));
            Run(code, base, sem, p, m) == Exit(target, Set(m, 16, target))
  {
    hide Run;
    hide AbsBranch;
    var target := Target(orig[i], Addr(from, i));
    var head := FollowsHead(code, p, orig, from, i);
    hide Follows;
    if orig[i].B? || (orig[i].BCond? && orig[i].cond >= 14) {
      RunAbsBranch(code, base, sem, p, m, target);
    } else {
      var skip := Inverted(orig[i], m, target);
      RunSkip(code, base, sem, p, m, skip, target, true);
    }
  }

  /** Whenever the original goes round by a branch to itself or further up, the copy leaves
      instead, for an address whose instruction has been overwritten. */
  lemma BranchBackDiffers(code: seq<Insn>, base: Word, p: nat, orig: seq<Insn>, from: Word, i: nat, sem: Semantics, m: Machine)
    requires Follows(code, p, orig, from, i) && i < |orig| && Back(orig[i], i) && Taken(orig[i], m)
    ensures Run(orig, from, sem, i, m) == Again(i + orig[i].off, m)
    ensures Run(code, base, sem, p, m).Exit? && Run(code, base, sem, p, m).addr == Target(orig[i], Addr(from, i))
    ensures !SameWayOut(Run(code, base, sem, p, m), Run(orig, from, sem, i, m), code, base, orig, from)
  {
    CopyOfTakenBranch(code, base, p, orig, from, i, sem, m);
    assert StepAt(orig, from, sem, i, m) == Leave(Again(i + orig[i].off, m));
    hide Follows;
    assert Run(orig, from, sem, i, m) == Again(i + orig[i].off, m);
  }

  /** Whenever the original calls one of its own overwritten instructions, the copy calls
      its old address. */
  lemma CallInsideDiffers(code: seq<Insn>, base: Word, p: nat, orig: seq<Insn>, from: Word, i: nat, sem: Semantics, m: Machine)
    requires Follows(code, p, orig, from, i) && i < |orig| && orig[i].Bl? && LandsInside(orig[i], i, |orig|)
    ensures Run(orig, from, sem, i, m) == CallIn(i + orig[i].off, i + 1, Set(m, 30, Addr(from, i + 1)))
    ensures Run(code, base, sem, p, m).Call? && Run(code, base, sem, p, m).addr == Target(orig[i], Addr(from, i))
    ensures !SameWayOut(Run(code, base, sem, p, m), Run(orig, from, sem, i, m), code, base, orig, from)
  {
    var head := FollowsHead(code, p, orig, from, i);
    hide Follows;
    hide AbsCall;
    RunAbsCall(code, base, sem, p, m, Target(orig[i], Addr(from, i)));
  }

  // The run from i ends at an instruction that finds its target in a register or in ways
  // this model leaves open.
  predicate LeavesByRegister(orig: seq<Insn>, from: Word, sem: Semantics, i: nat, m: Machine)
    requires i <= |orig|
    decreases |orig| - i
  {
    i < |orig| &&
    match StepAt(orig, from, sem, i, m)
    case Leave(_) => orig[i].Br? || orig[i].Ret? || orig[i].Blr? || orig[i].Plain?
    case Next(j, m') => LeavesByRegister(orig, from, sem, j, m')
  }

  // Offsets are far from wrapping around the address space, as those of real code are.
  ghost predicate Near(orig: seq<Insn>) {
    |orig| <= 0x1000_0000 && forall i | 0 <= i < |orig| && IsBranch(orig[i]) :: -0x1000_0000 <= orig[i].off <= 0x1000_0000
  }

  // Otherwise it leaves for no address of its own.
  lemma {:induction false} LeavesForOutside(orig: seq<Insn>, from: Word, sem: Semantics, i: nat, m: Machine, k: nat)
    requires i <= |orig| && k < |orig| && Near(orig) && !LeavesByRegister(orig, from, sem, i, m)
    requires Run(orig, from, sem, i, m).Exit?
    ensures Run(orig, from, sem, i, m).addr != Addr(from, k)
    decreases |orig| - i
  {
    hide Taken;
    hide Addr;
    hide Target;
    if i == |orig| {
      AddrsDiffer(from, |orig|, k);
    } else {
      match StepAt(orig, from, sem, i, m)
      case Next(j, m') => LeavesForOutside(orig, from, sem, j, m', k);
      case Leave(_) =>
        assert IsBranch(orig[i]) && !LandsInside(orig[i], i, |orig|);
        BranchTarget(orig[i], from, i);
        AddrsDiffer(from, i + orig[i].off, k);
    }
  }

  lemma BranchTarget(insn: Insn, from: Word, i: nat)
    requires IsBranch(insn)
    ensures Target(insn, Addr(from, i)) == Addr(from, i + insn.off)
  {
    WrapAgain(from + 4 * i, 4 * insn.off);
  }

  lemma WrapAgain(a: int, b: int)
    ensures Wrap(Wrap(a) + b) == Wrap(a + b)
  {
    var q := a / TWO64;
    assert a == q * TWO64 + Wrap(a);
    WholeTurns(Wrap(a) + b, q);
  }

  lemma WholeTurns(x: int, q: int)
    ensures Wrap(x + q * TWO64) == Wrap(x)
  {
  }

  lemma AddrsDiffer(from: Word, a: int, b: int)
    requires a != b && -0x4000_0000 <= a - b <= 0x4000_0000
    ensures Addr(from, a) != Addr(from, b)
  {
  }

  /** A run that turns inside is not preserved, for any prologue: the copy leaves for the
      overwritten instruction, which the original does only if it goes on there and then
      leaves for that very address by a register. */
  lemma {:induction false} TurningInsideDiffers(code: seq<Insn>, base: Word, p: nat, orig: seq<Insn>, from: Word, i: nat, sem: Semantics, m: Machine)
    requires Follows(code, p, orig, from, i) && Near(orig) && TurnsInside(orig, from, sem, i, m)
    ensures SameWayOut(Run(code, base, sem, p, m), Run(orig, from, sem, i, m), code, base, orig, from) ==>
              LeavesByRegister(orig, from, sem, i, m)
    decreases |orig| - i
  {
    hide Run;
    hide SameWayOut;
    hide Near;
    if TurnsAway(orig, i, m) {
      var q, m', left := StepAny(code, base, p, orig, from, i, sem, m);
      if !left {
        TurnsLater(orig, from, sem, i, m, m');
        TurningInsideDiffers(code, base, q, orig, from, i + 1, sem, m');
      }
    } else {
      TurnDiffers(code, base, p, orig, from, i, sem, m);
    }
  }

  lemma TurnDiffers(code: seq<Insn>, base: Word, p: nat, orig: seq<Insn>, from: Word, i: nat, sem: Semantics, m: Machine)
    requires Follows(code, p, orig, from, i) && Near(orig) && i < |orig| && !TurnsAway(orig, i, m)
    ensures SameWayOut(Run(code, base, sem, p, m), Run(orig, from, sem, i, m), code, base, orig, from) ==>
              LeavesByRegister(orig, from, sem, i, m)
  {
    hide Follows;
    hide Taken;
    hide Near;
    if orig[i].Bl? {
      CallInsideDiffers(code, base, p, orig, from, i, sem, m);
    } else if Back(orig[i], i) {
      BranchBackDiffers(code, base, p, orig, from, i, sem, m);
    } else {
      CopyOfTakenBranch(code, base, p, orig, from, i, sem, m);
      BranchTarget(orig[i], from, i);
      var j := i + orig[i].off;
      assert StepAt(orig, from, sem, i, m) == Next(j, m);
      assert Run(orig, from, sem, i, m) == Run(orig, from, sem, j, m);
      if !LeavesByRegister(orig, from, sem, j, m) && Run(orig, from, sem, j, m).Exit? {
        LeavesForOutside(orig, from, sem, j, m, j);
      }
    }
  }

  /** Register-indirect exits aside, the copy leaves the same way exactly if the first
      branch taken or call made does not land inside the prologue. */
  lemma SimulatesExactlyIf(code: seq<Insn>, base: Word, p: nat, orig: seq<Insn>, from: Word, i: nat, sem: Semantics, m: Machine)
    requires Follows(code, p, orig, from, i) && Near(orig) && !LeavesByRegister(orig, from, sem, i, m)
    ensures SameWayOut(Run(code, base, sem, p, m), Run(orig, from, sem, i, m), code, base, orig, from) <==>
              !TurnsInside(orig, from, sem, i, m)
  {
    hide Run;
    hide SameWayOut;
    if TurnsInside(orig, from, sem, i, m) {
      TurningInsideDiffers(code, base, p, orig, from, i, sem, m);
    } else {
      Simulates(code, base, p, orig, from, i, sem, m);
    }
  }

  lemma {:induction false} LeavingNeverTurns(orig: seq<Insn>, from: Word, sem: Semantics, i: nat, m: Machine)
    requires i <= |orig| && BranchesLeave(orig)
    ensures !TurnsInside(orig, from, sem, i, m)
    decreases |orig| - i
  {
    if i < |orig| && !Turns(orig[i], m) {
      match StepAt(orig, from, sem, i, m)
      case Leave(_) =>
      case Next(j, m') => LeavingNeverTurns(orig, from, sem, j, m');
    }
  }
}

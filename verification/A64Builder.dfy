/** The trampoline builder: instruction words appended to a fixed buffer. */
module A64Builder {
  import opened Words
  import opened A64Machine
  import opened A64Encoding
  import opened A64Relocation

  const INSN_SIZE: nat := 4
  const ORIG_CODE_MAX: nat := 32

  // MOVZ and the MOVKs of halfwords below k; zero halfwords after the first are skipped.
  function MovWordsTo(rd: Reg, value: Word, k: nat): seq<Insn32>
    requires k <= 4
  {
    if k == 0 then []
    else
      var hw := k - 1;
      MovWordsTo(rd, value, hw) +
      if hw != 0 && Half(value, hw) == 0 then [] else [MovWord(rd, Half(value, hw), hw)]
  }

  function MovAbsWords(rd: Reg, value: Word): seq<Insn32> {
    MovWordsTo(rd, value, 4)
  }

  function AbsBranchWords(target: Word): seq<Insn32> {
    MovAbsWords(16, target) + [BR_X16]
  }

  datatype Emitted = Unsupported | Emitted(words: seq<Insn32>)

  // The words that replace w, given the disassembler's operand.
  function RelocateWord(w: Insn32, target: Word): Emitted {
    match Decode(w)
    case Adr(_, _, _) => Emitted(MovAbsWords(w % 32, target))
    case Bl(_) => Emitted(MovAbsWords(16, target) + [BLR_X16])
    case B(_) => Emitted(AbsBranchWords(target))
    case BCond(cond, _) =>
      if cond < 14 then Emitted([BCondWord(Inverse(cond), SkipWords(target))] + AbsBranchWords(target))
      else Emitted(AbsBranchWords(target))
    case Cb(_, _, _, _) => Emitted([CbWord(w, SkipWords(target))] + AbsBranchWords(target))
    case Tb(_, _, _, _) => Emitted([TbWord(w, SkipWords(target))] + AbsBranchWords(target))
    case LdrLiteral(_) => Unsupported
    case _ => Emitted([w])
  }

  function RelocateWords(orig: seq<Insn32>, base: Word, i: nat): Emitted
    requires i <= |orig|
    decreases |orig| - i
  {
    if i == |orig| then Emitted([])
    else
      match RelocateWord(orig[i], Target(Decode(orig[i]), Addr(base, i)))
      case Unsupported => Unsupported
      case Emitted(head) =>
        match RelocateWords(orig, base, i + 1)
        case Unsupported => Unsupported
        case Emitted(tail) => Emitted(head + tail)
  }

  const MOV_X15_X30: Insn32 := 0xAA1E03EF
  const MOV_X30_X15: Insn32 := 0xAA0F03FE

  function PrefixWords(probeId: Word, stub: Word): seq<Insn32> {
    [MOV_X15_X30] + MovAbsWords(17, probeId) + MovAbsWords(16, stub) + [BLR_X16] + [MOV_X30_X15]
  }

  function Trampoline(orig: seq<Insn32>, base: Word, probeId: Word, stub: Word): Emitted {
    match RelocateWords(orig, base, 0)
    case Unsupported => Unsupported
    case Emitted(body) =>
      Emitted(PrefixWords(probeId, stub) + body + AbsBranchWords(Addr(base, |orig|)))
  }

  // ---------------------------------------------------------------------------
  // The words decode to the relocated instructions

  lemma {:induction false} DecodeJoin(a: seq<Insn32>, b: seq<Insn32>)
    ensures DecodeAll(a + b) == DecodeAll(a) + DecodeAll(b)
  {
    hide Decode;
    assert forall i | 0 <= i < |a + b| :: DecodeAll(a + b)[i] == (DecodeAll(a) + DecodeAll(b))[i];
  }

  lemma DecodeOne(w: Insn32, insn: Insn)
    requires Decode(w) == insn
    ensures DecodeAll([w]) == [insn]
  {
    hide Decode;
  }

  lemma DecodeHalf(rd: Reg, value: Word, hw: nat)
    requires hw < 4
    ensures DecodeAll(if hw != 0 && Half(value, hw) == 0 then [] else [MovWord(rd, Half(value, hw), hw)]) ==
            if hw == 0 then [MovZ(rd, Half(value, 0), 0)] else MovKs(rd, value, hw)
  {
    hide Decode;
    hide MovWord;
    DecodeMov(rd, Half(value, hw), hw);
    if hw == 0 || Half(value, hw) != 0 {
      DecodeOne(MovWord(rd, Half(value, hw), hw), Decode(MovWord(rd, Half(value, hw), hw)));
    }
  }

  lemma MovWordsStep(rd: Reg, value: Word, hw: nat)
    requires hw < 4
    ensures DecodeAll(MovWordsTo(rd, value, hw + 1)) ==
            DecodeAll(MovWordsTo(rd, value, hw)) + if hw == 0 then [MovZ(rd, Half(value, 0), 0)] else MovKs(rd, value, hw)
  {
    hide Decode;
    hide DecodeAll;
    hide Half;
    DecodeHalf(rd, value, hw);
    DecodeJoin(MovWordsTo(rd, value, hw), if hw != 0 && Half(value, hw) == 0 then [] else [MovWord(rd, Half(value, hw), hw)]);
  }

  lemma MovAbsDecodes(rd: Reg, value: Word)
    ensures DecodeAll(MovAbsWords(rd, value)) == MovAbs(rd, value)
  {
    hide Decode;
    hide Half;
    hide MovKs;
    MovWordsStep(rd, value, 0);
    MovWordsStep(rd, value, 1);
    MovWordsStep(rd, value, 2);
    MovWordsStep(rd, value, 3);
    assert DecodeAll(MovWordsTo(rd, value, 0)) == [];
  }

  lemma AbsBranchDecodes(target: Word)
    ensures DecodeAll(AbsBranchWords(target)) == AbsBranch(target)
  {
    hide Decode;
    hide MovAbsWords;
    MovAbsDecodes(16, target);
    DecodeBranches();
    DecodeOne(BR_X16, Br(16));
    DecodeJoin(MovAbsWords(16, target), [BR_X16]);
  }

  lemma SkipDecodes(w: Insn32, skip: Insn, target: Word)
    requires Decode(w) == skip
    ensures DecodeAll([w] + AbsBranchWords(target)) == [skip] + AbsBranch(target)
  {
    hide Decode;
    hide AbsBranchWords;
    AbsBranchDecodes(target);
    DecodeOne(w, skip);
    DecodeJoin([w], AbsBranchWords(target));
  }

  lemma CallDecodes(target: Word)
    ensures DecodeAll(MovAbsWords(16, target) + [BLR_X16]) == AbsCall(target)
  {
    hide Decode;
    hide MovAbsWords;
    MovAbsDecodes(16, target);
    DecodeBranches();
    DecodeOne(BLR_X16, Blr(16));
    DecodeJoin(MovAbsWords(16, target), [BLR_X16]);
  }

  lemma AdrFields(w: Insn32)
    requires Decode(w).Adr?
    ensures Decode(w).rd == w % 32
  {
  }

  /** The bit-level rewriting produces exactly the relocated instructions. */
  lemma RelocateWordDecodes(w: Insn32, target: Word)
    ensures match RelocateWord(w, target)
            case Unsupported => Relocate(Decode(w), target) == Refused
            case Emitted(ws) => Relocate(Decode(w), target) == Code(DecodeAll(ws))
  {
    hide Decode;
    hide DecodeAll;
    match Decode(w)
    case Adr(rd, _, _) =>
      AdrFields(w);
      MovAbsDecodes(rd, target);
    case Bl(_) => CallDecodes(target);
    case B(_) => AbsBranchDecodes(target);
    case BCond(cond, _) =>
      AbsBranchDecodes(target);
      if cond < 14 {
        DecodeBCond(Inverse(cond), SkipWords(target));
        SkipDecodes(BCondWord(Inverse(cond), SkipWords(target)), BCond(Inverse(cond), SkipWords(target)), target);
      }
    case Cb(_, _, _, _) =>
      DecodeCb(w, SkipWords(target));
      SkipDecodes(CbWord(w, SkipWords(target)), Decode(CbWord(w, SkipWords(target))), target);
    case Tb(_, _, _, _) =>
      DecodeTb(w, SkipWords(target));
      SkipDecodes(TbWord(w, SkipWords(target)), Decode(TbWord(w, SkipWords(target))), target);
    case LdrLiteral(_) =>
    case _ => DecodeOne(w, Decode(w));
  }

  lemma {:induction false} RelocateWordsDecode(orig: seq<Insn32>, base: Word, i: nat)
    requires i <= |orig|
    ensures match RelocateWords(orig, base, i)
            case Unsupported => RelocateFrom(DecodeAll(orig), base, i) == Refused
            case Emitted(ws) => RelocateFrom(DecodeAll(orig), base, i) == Code(DecodeAll(ws))
    decreases |orig| - i
  {
    hide Decode;
    hide RelocateWord;
    hide Relocate;
    if i < |orig| {
      var target := Target(Decode(orig[i]), Addr(base, i));
      RelocateWordDecodes(orig[i], target);
      RelocateWordsDecode(orig, base, i + 1);
      if RelocateWords(orig, base, i).Emitted? {
        DecodeJoin(RelocateWord(orig[i], target).words, RelocateWords(orig, base, i + 1).words);
      }
    }
  }

  // ---------------------------------------------------------------------------
  // The whole trampoline

  lemma MovsDecode()
    ensures Decode(MOV_X15_X30) == MovReg(15, 30) && Decode(MOV_X30_X15) == MovReg(30, 15)
  {
  }

  function Prefix(probeId: Word, stub: Word): seq<Insn> {
    [MovReg(15, 30)] + (MovAbs(17, probeId) + (AbsCall(stub) + [MovReg(30, 15)]))
  }

  lemma PrefixDecodes(probeId: Word, stub: Word)
    ensures DecodeAll(PrefixWords(probeId, stub)) == Prefix(probeId, stub)
  {
    hide Decode;
    hide DecodeAll;
    hide MovAbsWords;
    hide MovAbs;
    var call := MovAbsWords(16, stub) + [BLR_X16];
    MovsDecode();
    DecodeOne(MOV_X15_X30, MovReg(15, 30));
    DecodeOne(MOV_X30_X15, MovReg(30, 15));
    MovAbsDecodes(17, probeId);
    CallDecodes(stub);
    assert PrefixWords(probeId, stub) == [MOV_X15_X30] + (MovAbsWords(17, probeId) + (call + [MOV_X30_X15]));
    DecodeJoin([MOV_X15_X30], MovAbsWords(17, probeId) + (call + [MOV_X30_X15]));
    DecodeJoin(MovAbsWords(17, probeId), call + [MOV_X30_X15]);
    DecodeJoin(call, [MOV_X30_X15]);
  }

  // Decoded, a trampoline is prefix, relocated prologue and jump back.
  lemma TrampolineDecodes(orig: seq<Insn32>, base: Word, probeId: Word, stub: Word) returns (code: seq<Insn>, k: nat)
    requires Trampoline(orig, base, probeId, stub).Emitted?
    ensures code == DecodeAll(Trampoline(orig, base, probeId, stub).words)
    ensures k == |Prefix(probeId, stub)| && At(code, 0, Prefix(probeId, stub))
    ensures Follows(code, k, DecodeAll(orig), base, 0)
  {
    hide Decode;
    hide DecodeAll;
    hide AbsBranch;
    hide AbsBranchWords;
    hide Prefix;
    hide PrefixWords;
    hide RelocateWords;
    hide RelocateFrom;
    hide At;
    var body := RelocateWords(orig, base, 0).words;
    var back := AbsBranchWords(Addr(base, |orig|));
    var front := PrefixWords(probeId, stub);
    code := DecodeAll(front + body + back);
    k := |Prefix(probeId, stub)|;
    PrefixDecodes(probeId, stub);
    RelocateWordsDecode(orig, base, 0);
    AbsBranchDecodes(Addr(base, |orig|));
    assert front + body + back == front + (body + back);
    DecodeJoin(front, body + back);
    DecodeJoin(body, back);
    FrontAndRest(code, Prefix(probeId, stub), DecodeAll(body) + DecodeAll(back));
  }

  lemma FrontAndRest(code: seq<Insn>, front: seq<Insn>, rest: seq<Insn>)
    requires code == front + rest
    ensures At(code, 0, front) && |front| <= |code| && code[|front|..] == rest
  {
  }

  lemma RunMovReg(code: seq<Insn>, at: Word, sem: Semantics, p: nat, m: Machine)
    requires p < |code| && code[p].MovReg?
    ensures Run(code, at, sem, p, m) == Run(code, at, sem, p + 1, Set(m, code[p].rd, Get(m, code[p].rm)))
  {
  }

  // What entry_stub finds: the probe id in x17, the caller's return address in x15.
  ghost predicate StubCall(out: Outcome, at: Word, m: Machine, probeId: Word, stub: Word, resume: nat) {
    && out.Call? && out.addr == stub && out.resume == resume
    && Get(out.m, 17) == probeId && Get(out.m, 15) == Get(m, 30) && Get(out.m, 30) == Addr(at, resume)
    && SameBut(out.m, m, {15, 16, 17, 30})
  }

  lemma StubRegisters(m: Machine, at: Word, probeId: Word, stub: Word, resume: nat)
    ensures StubCall(Call(stub, resume, Set(Set(Set(Set(m, 15, Get(m, 30)), 17, probeId), 16, stub), 30, Addr(at, resume))),
                     at, m, probeId, stub, resume)
  {
  }

  /** Entering the trampoline calls entry_stub with the probe id and the return address;
      after entry_stub returns, the trampoline behaves as the original function does when
      its link register holds what the stub left in x15: register-indirect exits aside,
      exactly if the first branch taken or call made does not land inside the prologue. */
  lemma TrampolineBehaves(orig: seq<Insn32>, base: Word, probeId: Word, stub: Word, at: Word, sem: Semantics, m: Machine)
    returns (code: seq<Insn>, resume: nat)
    requires Trampoline(orig, base, probeId, stub).Emitted?
    ensures code == DecodeAll(Trampoline(orig, base, probeId, stub).words) && resume < |code|
    ensures StubCall(Run(code, at, sem, 0, m), at, m, probeId, stub, resume)
    ensures var o, m0 := DecodeAll(orig), Set(m, 30, Get(m, 15));
            var same := SameWayOut(Run(code, at, sem, resume, m), Run(o, base, sem, 0, m0), code, at, o, base);
            && (!TurnsInside(o, base, sem, 0, m0) ==> same)
            && (|orig| <= 0x1000_0000 && !LeavesByRegister(o, base, sem, 0, m0) && TurnsInside(o, base, sem, 0, m0) ==> !same)
  {
    hide Run;
    hide Decode;
    hide DecodeAll;
    hide MovAbs;
    hide AbsCall;
    hide Follows;
    hide SameWayOut;
    hide StubCall;
    hide At;
    hide Set;
    hide Get;
    hide TurnsInside;
    hide LeavesByRegister;
    hide Near;
    hide Trampoline;
    var k;
    code, k := TrampolineDecodes(orig, base, probeId, stub);
    var p, q := 1, 1 + |MovAbs(17, probeId)|;
    resume := q + |AbsCall(stub)|;
    AtHead(code, 0, MovReg(15, 30), MovAbs(17, probeId) + (AbsCall(stub) + [MovReg(30, 15)]));
    AtSplit(code, p, MovAbs(17, probeId), AbsCall(stub) + [MovReg(30, 15)]);
    AtSplit(code, q, AbsCall(stub), [MovReg(30, 15)]);
    AtHead(code, resume, MovReg(30, 15), []);
    var m1 := Set(m, 15, Get(m, 30));
    RunMovReg(code, at, sem, 0, m);
    RunMovAbs(code, at, sem, p, m1, 17, probeId);
    RunAbsCall(code, at, sem, q, Set(m1, 17, probeId), stub);
    StubRegisters(m, at, probeId, stub, resume);
    RunMovReg(code, at, sem, resume, m);
    assert resume + 1 == k;
    var o, m0 := DecodeAll(orig), Set(m, 30, Get(m, 15));
    if !TurnsInside(o, base, sem, 0, m0) {
      Simulates(code, at, k, o, base, 0, sem, m0);
    } else if |orig| <= 0x1000_0000 {
      DecodedIsNear(orig);
      TurningInsideDiffers(code, at, k, o, base, 0, sem, m0);
    }
  }

  lemma DecodedIsNear(orig: seq<Insn32>)
    requires |orig| <= 0x1000_0000
    ensures Near(DecodeAll(orig))
  {
    hide Decode;
    forall i | 0 <= i < |orig| && IsBranch(Decode(orig[i])) ensures -0x1000_0000 <= Decode(orig[i]).off <= 0x1000_0000 {
      BranchIsNear(orig[i]);
    }
  }

  lemma BranchIsNear(w: Insn32)
    requires IsBranch(Decode(w))
    ensures -0x1000_0000 <= Decode(w).off <= 0x1000_0000
  {
  }

  // ---------------------------------------------------------------------------
  // Sizes

  lemma MovWordsCount(rd: Reg, value: Word)
    ensures |MovAbsWords(rd, value)| == |MovAbs(rd, value)|
  {
    hide Decode;
    hide MovAbs;
    hide MovAbsWords;
    MovAbsDecodes(rd, value);
  }

  lemma {:induction false} RelocatedSize(orig: seq<Insn32>, base: Word, i: nat)
    requires i <= |orig| && RelocateWords(orig, base, i).Emitted?
    ensures |RelocateWords(orig, base, i).words| <= 6 * (|orig| - i)
    decreases |orig| - i
  {
    hide Decode;
    hide MovAbsWords;
    if i < |orig| {
      var target := Target(Decode(orig[i]), Addr(base, i));
      MovWordsCount(16, target);
      MovWordsCount(orig[i] % 32, target);
      RelocatedSize(orig, base, i + 1);
    }
  }

  /** A prologue of at most 32 bytes always fits a 512-byte trampoline slot. */
  lemma TrampolineFits(orig: seq<Insn32>, base: Word, probeId: Word, stub: Word)
    requires 4 * |orig| <= 32 && Trampoline(orig, base, probeId, stub).Emitted?
    ensures 4 * |Trampoline(orig, base, probeId, stub).words| <= 512
  {
    hide RelocateWords;
    hide MovAbsWords;
    RelocatedSize(orig, base, 0);
    MovWordsCount(17, probeId);
    MovWordsCount(16, stub);
    MovWordsCount(16, Addr(base, |orig|));
  }

  // zt_mov_abs_size: the bytes a MOVZ/MOVK chain takes, counted without emitting it.
  method MovAbsSize(value: Word) returns (size: nat)
    ensures forall rd: Reg :: size == INSN_SIZE * |MovAbsWords(rd, value)|
  {
    var count := 1;
    var hw := 1;
    while hw < 4
      invariant 1 <= hw <= 4 && count <= hw
      invariant forall rd: Reg :: |MovWordsTo(rd, value, hw)| == count
    {
      if Half(value, hw) != 0 {
        count := count + 1;
      }
      hw := hw + 1;
    }
    size := count * INSN_SIZE;
  }

  // The buffer and its moving offset, in words.
  class CodeBuffer {
    const buf: array<Insn32>
    var count: nat

    ghost predicate Valid()
      reads this
    {
      count <= buf.Length
    }

    ghost function Contents(): seq<Insn32>
      requires Valid()
      reads this, buf
    {
      buf[..count]
    }

    constructor (capacity: nat)
      ensures Valid() && fresh(buf) && buf.Length == capacity && count == 0
    {
      buf := new Insn32[capacity](_ => 0xD503201F);
      count := 0;
    }

    // The words were appended, or (some of them) did not fit.
    twostate predicate Appended(ok: bool, words: seq<Insn32>)
      reads this, buf
    {
      && old(Valid()) && Valid()
      && (ok <==> old(count) + |words| <= buf.Length)
      && (ok ==> Contents() == old(Contents()) + words)
    }

    method EmitWord(w: Insn32) returns (ok: bool)
      requires Valid()
      modifies this, buf
      ensures Appended(ok, [w])
    {
      if count + 1 > buf.Length {
        return false;
      }
      buf[count] := w;
      count := count + 1;
      return true;
    }

    method EmitMovAbs(rd: Reg, value: Word) returns (ok: bool)
      requires Valid()
      modifies this, buf
      ensures Appended(ok, MovAbsWords(rd, value))
    {
      hide Half;
      hide MovWord;
      var hw := 0;
      while hw < 4
        invariant hw <= 4 && Appended(true, MovWordsTo(rd, value, hw))
      {
        ghost var before := Contents();
        MovWordsGrow(rd, value, hw);
        if hw == 0 || Half(value, hw) != 0 {
          var good := EmitWord(MovWord(rd, Half(value, hw), hw));
          if !good {
            return false;
          }
          assert Contents() == before + [MovWord(rd, Half(value, hw), hw)];
        }
        hw := hw + 1;
      }
      return true;
    }

    // Straight-line sequences of words.
    method EmitWords(words: seq<Insn32>) returns (ok: bool)
      requires Valid()
      modifies this, buf
      ensures Appended(ok, words)
    {
      var i := 0;
      while i < |words|
        invariant i <= |words| && Appended(true, words[..i])
      {
        ghost var before := Contents();
        var good := EmitWord(words[i]);
        if !good {
          return false;
        }
        assert words[..i + 1] == words[..i] + [words[i]];
        i := i + 1;
      }
      assert words[..i] == words;
      return true;
    }
  }

  // Emission only grows, so a prefix that does not fit settles the whole.
  lemma MovWordsGrow(rd: Reg, value: Word, hw: nat)
    requires hw < 4
    ensures MovWordsTo(rd, value, hw + 1) == MovWordsTo(rd, value, hw) +
            if hw != 0 && Half(value, hw) == 0 then [] else [MovWord(rd, Half(value, hw), hw)]
    ensures |MovWordsTo(rd, value, hw + 1)| <= |MovAbsWords(rd, value)|
  {
    hide Half;
    hide MovWord;
    MovWordsMonotone(rd, value, hw + 1, 4);
  }

  lemma {:induction false} MovWordsMonotone(rd: Reg, value: Word, j: nat, k: nat)
    requires j <= k <= 4
    ensures |MovWordsTo(rd, value, j)| <= |MovWordsTo(rd, value, k)|
    decreases k
  {
    hide Half;
    hide MovWord;
    if j < k {
      MovWordsMonotone(rd, value, j, k - 1);
    }
  }

  /** Builds a trampoline. It succeeds exactly when the inputs are usable, every prologue
      instruction is supported and the result fits the buffer. */
  method BuildTrampoline(orig: seq<Insn32>, base: Word, probeId: Word, stub: Word, at: Word, buffer: CodeBuffer) returns (ok: bool)
    requires buffer.Valid() && buffer.count == 0
    modifies buffer, buffer.buf
    ensures buffer.Valid()
    ensures ok <==> && at != 0 && stub != 0 && 0 < 4 * |orig| <= 32
                    && Trampoline(orig, base, probeId, stub).Emitted?
                    && |Trampoline(orig, base, probeId, stub).words| <= buffer.buf.Length
    ensures ok ==> buffer.Contents() == Trampoline(orig, base, probeId, stub).words
  {
    hide Decode;
    hide RelocateWord;
    hide MovAbsWords;
    if at == 0 || stub == 0 || orig == [] || INSN_SIZE * |orig| > ORIG_CODE_MAX {
      return false;
    }
    ok := BuildPrefix(probeId, stub, buffer);
    if !ok {
      return;
    }
    ok := BuildBody(orig, base, buffer);
    if !ok {
      return;
    }
    ok := buffer.EmitMovAbs(16, Addr(base, |orig|));
    if ok {
      ok := buffer.EmitWord(BR_X16);
    }
  }

  // After i instructions the words in `done` have been emitted.
  ghost predicate BodySoFar(orig: seq<Insn32>, base: Word, i: nat, done: seq<Insn32>)
    requires i <= |orig|
  {
    match RelocateWords(orig, base, i)
    case Unsupported => RelocateWords(orig, base, 0).Unsupported?
    case Emitted(ws) => RelocateWords(orig, base, 0) == Emitted(done + ws)
  }

  lemma BodyStart(orig: seq<Insn32>, base: Word)
    ensures BodySoFar(orig, base, 0, [])
  {
    if RelocateWords(orig, base, 0).Emitted? {
      assert [] + RelocateWords(orig, base, 0).words == RelocateWords(orig, base, 0).words;
    }
  }

  lemma BodyNext(orig: seq<Insn32>, base: Word, i: nat, done: seq<Insn32>, words: seq<Insn32>)
    requires i < |orig| && BodySoFar(orig, base, i, done)
    requires RelocateWord(orig[i], Target(Decode(orig[i]), Addr(base, i))) == Emitted(words)
    ensures BodySoFar(orig, base, i + 1, done + words)
    ensures RelocateWords(orig, base, 0).Emitted? ==> |done + words| <= |RelocateWords(orig, base, 0).words|
  {
    hide Decode;
    hide RelocateWord;
    hide Target;
    var rest := RelocateWords(orig, base, i + 1);
    if rest.Emitted? {
      assert done + (words + rest.words) == done + words + rest.words;
    }
  }

  lemma BodyRefused(orig: seq<Insn32>, base: Word, i: nat, done: seq<Insn32>)
    requires i < |orig| && BodySoFar(orig, base, i, done)
    requires RelocateWord(orig[i], Target(Decode(orig[i]), Addr(base, i))).Unsupported?
    ensures RelocateWords(orig, base, 0).Unsupported?
  {
    hide Decode;
    hide RelocateWord;
  }

  lemma BodyDone(orig: seq<Insn32>, base: Word, done: seq<Insn32>)
    requires BodySoFar(orig, base, |orig|, done)
    ensures RelocateWords(orig, base, 0) == Emitted(done)
  {
    assert done + [] == done;
  }

  // The relocated prologue, instruction by instruction.
  method BuildBody(orig: seq<Insn32>, base: Word, buffer: CodeBuffer) returns (ok: bool)
    requires buffer.Valid()
    modifies buffer, buffer.buf
    ensures buffer.Valid()
    ensures ok <==> RelocateWords(orig, base, 0).Emitted?
                    && old(buffer.count) + |RelocateWords(orig, base, 0).words| <= buffer.buf.Length
    ensures ok ==> buffer.Contents() == old(buffer.Contents()) + RelocateWords(orig, base, 0).words
  {
    hide Decode;
    hide RelocateWord;
    hide RelocateWords;
    hide Target;
    ghost var start := buffer.Contents();
    BodyStart(orig, base);
    var i := 0;
    ghost var done: seq<Insn32> := [];
    while i < |orig|
      invariant i <= |orig| && buffer.Valid()
      invariant buffer.Contents() == start + done
      invariant BodySoFar(orig, base, i, done)
    {
      var code := RelocateWord(orig[i], Target(Decode(orig[i]), Addr(base, i)));
      if code.Unsupported? {
        BodyRefused(orig, base, i, done);
        return false;
      }
      BodyNext(orig, base, i, done, code.words);
      ok := buffer.EmitWords(code.words);
      if !ok {
        return;
      }
      done := done + code.words;
      i := i + 1;
    }
    BodyDone(orig, base, done);
    return true;
  }

  method BuildPrefix(probeId: Word, stub: Word, buffer: CodeBuffer) returns (ok: bool)
    requires buffer.Valid() && buffer.count == 0
    modifies buffer, buffer.buf
    ensures buffer.Valid() && (ok <==> |PrefixWords(probeId, stub)| <= buffer.buf.Length)
    ensures ok ==> buffer.Contents() == PrefixWords(probeId, stub)
  {
    hide MovAbsWords;
    ok := buffer.EmitWord(MOV_X15_X30);
    if ok {
      ok := buffer.EmitMovAbs(17, probeId);
    }
    if ok {
      ok := buffer.EmitMovAbs(16, stub);
    }
    if ok {
      ok := buffer.EmitWord(BLR_X16);
    }
    if ok {
      ok := buffer.EmitWord(MOV_X30_X15);
    }
  }
}

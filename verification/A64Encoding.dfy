/** Instruction words: decoding, and the words the relocator writes. */
module A64Encoding {
  import opened Words
  import opened A64Machine

  type Insn32 = w: nat | w < 0x1_0000_0000

  // Bits lo .. lo + width - 1, given 2^lo and 2^width.
  function Bits(w: nat, lo: nat, span: nat): nat
    requires lo > 0 && span > 0
  {
    w / lo % span
  }

  function Signed(n: nat, span: nat): int {
    if 2 * n >= span then n - span else n
  }

  function Decode(w: Insn32): Insn {
    if w / 0x800000 == 0x1A5 then MovZ(w % 32, Bits(w, 32, 0x10000), Bits(w, 0x200000, 4))
    else if w / 0x800000 == 0x1E5 then MovK(w % 32, Bits(w, 32, 0x10000), Bits(w, 0x200000, 4))
    else if Bits(w, 0x1000000, 32) == 0x10 then
      Adr(w % 32, w / 0x80000000 == 1, Signed(Bits(w, 32, 0x80000) * 4 + Bits(w, 0x20000000, 4), 0x200000))
    else if w / 0x4000000 == 0x05 then B(Signed(w % 0x4000000, 0x4000000))
    else if w / 0x4000000 == 0x25 then Bl(Signed(w % 0x4000000, 0x4000000))
    else if w / 0x1000000 == 0x54 && Bits(w, 16, 2) == 0 then BCond(w % 16, Signed(Bits(w, 32, 0x80000), 0x80000))
    else if Bits(w, 0x2000000, 64) == 0x1A then
      Cb(Bits(w, 0x1000000, 2) == 1, w / 0x80000000 == 1, w % 32, Signed(Bits(w, 32, 0x80000), 0x80000))
    else if Bits(w, 0x2000000, 64) == 0x1B then
      Tb(Bits(w, 0x1000000, 2) == 1, w / 0x80000000 * 32 + Bits(w, 0x80000, 32), w % 32, Signed(Bits(w, 32, 0x4000), 0x4000))
    else if w / 0x400 == 0x3587C0 && w % 32 == 0 then Br(Bits(w, 32, 32))
    else if w / 0x400 == 0x358FC0 && w % 32 == 0 then Blr(Bits(w, 32, 32))
    else if w / 0x400 == 0x3597C0 && w % 32 == 0 then Ret(Bits(w, 32, 32))
    else if w / 0x200000 == 0x550 && Bits(w, 32, 0x800) == 0x1F then MovReg(w % 32, Bits(w, 0x10000, 32))
    else if Bits(w, 0x1000000, 4) == 0 && Bits(w, 0x8000000, 8) == 3 && w / 0x1000000 != 0xD8 then LdrLiteral(w)
    else Plain(w)
  }

  function DecodeAll(ws: seq<Insn32>): (code: seq<Insn>)
    ensures |code| == |ws|
    ensures forall i | 0 <= i < |ws| :: code[i] == Decode(ws[i])
  {
    if ws == [] then [] else [Decode(ws[0])] + DecodeAll(ws[1..])
  }

  const BR_X16: Insn32 := 0xD61F0200
  const BLR_X16: Insn32 := 0xD63F0200

  // MOVZ for halfword 0, MOVK for the others. The fields do not overlap, so their
  // bitwise or is a sum.
  function MovWord(rd: Reg, imm: nat, hw: nat): Insn32
    requires imm < K16 && hw < 4
  {
    (if hw == 0 then 0xD2800000 else 0xF2800000) + hw * 0x200000 + imm * 32 + rd
  }

  function BCondWord(cond: nat, words: nat): Insn32
    requires cond < 16 && words < 0x80000
  {
    0x54000000 + words * 32 + cond
  }

  // Bit 24 flipped: CBZ and CBNZ, or TBZ and TBNZ, change places.
  function Flip24(w: Insn32): Insn32 {
    if Bits(w, 0x1000000, 2) == 1 then w - 0x1000000 else w + 0x1000000
  }

  function CbWord(w: Insn32, words: nat): Insn32
    requires words < 0x80000
  {
    Flip24(w) - Bits(w, 32, 0x80000) * 32 + words * 32
  }

  function TbWord(w: Insn32, words: nat): Insn32
    requires words < 0x4000
  {
    Flip24(w) - Bits(w, 32, 0x4000) * 32 + words * 32
  }

  lemma DecodeMov(rd: Reg, imm: nat, hw: nat)
    requires imm < K16 && hw < 4
    ensures Decode(MovWord(rd, imm, hw)) == if hw == 0 then MovZ(rd, imm, hw) else MovK(rd, imm, hw)
  {
  }

  lemma DecodeBranches()
    ensures Decode(BR_X16) == Br(16) && Decode(BLR_X16) == Blr(16)
  {
  }

  lemma BCondFields(cond: nat, words: nat)
    requires cond < 16 && words <= 6
    ensures var w := BCondWord(cond, words);
            w / 0x1000000 == 0x54 && Bits(w, 16, 2) == 0 && w % 16 == cond && Bits(w, 32, 0x80000) == words
  {
  }

  lemma DecodeBCondIs(w: Insn32)
    requires w / 0x1000000 == 0x54 && Bits(w, 16, 2) == 0
    ensures Decode(w) == BCond(w % 16, Signed(Bits(w, 32, 0x80000), 0x80000))
  {
  }

  lemma DecodeBCond(cond: nat, words: nat)
    requires cond < 16 && words <= 6
    ensures Decode(BCondWord(cond, words)) == BCond(cond, words)
  {
    hide Decode;
    BCondFields(cond, words);
    DecodeBCondIs(BCondWord(cond, words));
  }

  // Dividing in steps is dividing at once.
  lemma Quotients(w: nat)
    ensures w / 32 / 0x4000 == w / 0x80000
    ensures w / 0x80000 / 32 == w / 0x1000000
    ensures w / 0x1000000 / 2 == w / 0x2000000
    ensures w / 0x2000000 / 64 == w / 0x80000000
  {
  }

  // A word from its low five bits, 14-bit field, 5-bit field, bit 24 and high part.
  lemma FieldsOf(high: nat, flag: nat, bit: nat, off: nat, low: nat) returns (w: nat)
    requires high < 128 && flag < 2 && bit < 32 && off < 0x4000 && low < 32
    ensures w == (((high * 2 + flag) * 32 + bit) * 0x4000 + off) * 32 + low
    ensures w < 0x1_0000_0000 && w % 32 == low && w / 32 == ((high * 2 + flag) * 32 + bit) * 0x4000 + off
    ensures w / 32 % 0x4000 == off && w / 0x80000 == (high * 2 + flag) * 32 + bit
    ensures w / 0x80000 % 32 == bit && w / 0x1000000 == high * 2 + flag
    ensures w / 0x1000000 % 2 == flag && w / 0x2000000 == high
  {
    w := (((high * 2 + flag) * 32 + bit) * 0x4000 + off) * 32 + low;
    Quotients(w);
  }

  // Every word has those fields.
  lemma Fields(w: Insn32) returns (high: nat, flag: nat, bit: nat, off: nat, low: nat)
    ensures high < 128 && flag < 2 && bit < 32 && off < 0x4000 && low < 32
    ensures w == (((high * 2 + flag) * 32 + bit) * 0x4000 + off) * 32 + low
    ensures low == w % 32 && off == Bits(w, 32, 0x4000) && bit == Bits(w, 0x80000, 32)
    ensures flag == Bits(w, 0x1000000, 2) && high == w / 0x2000000
  {
    Quotients(w);
    low, off, bit, flag, high := w % 32, w / 32 % 0x4000, w / 0x80000 % 32, w / 0x1000000 % 2, w / 0x2000000;
  }

  // The 19-bit field of CBZ covers TBZ's bit number and offset.
  lemma WideField(w: nat)
    ensures w / 32 % 0x80000 == w / 0x80000 % 32 * 0x4000 + w / 32 % 0x4000
  {
    Quotients(w);
  }

  lemma CbFields(w: Insn32, words: nat)
    requires words < 0x4000
    ensures var v := CbWord(w, words);
            && v / 0x2000000 == w / 0x2000000 && Bits(v, 0x1000000, 2) == 1 - Bits(w, 0x1000000, 2)
            && v % 32 == w % 32 && Bits(v, 32, 0x80000) == words
  {
    var high, flag, bit, off, low := Fields(w);
    WideField(w);
    var v := FieldsOf(high, 1 - flag, 0, words, low);
    assert v == CbWord(w, words);
    WideField(v);
  }

  lemma DecodeCbIs(w: Insn32)
    ensures Decode(w).Cb? <==> Bits(w, 0x2000000, 64) == 0x1A
    ensures Decode(w).Cb? ==>
              Decode(w) == Cb(Bits(w, 0x1000000, 2) == 1, w / 0x80000000 == 1, w % 32, Signed(Bits(w, 32, 0x80000), 0x80000))
  {
  }

  lemma DecodeCb(w: Insn32, words: nat)
    requires Decode(w).Cb? && words <= 6
    ensures var d := Decode(w); Decode(CbWord(w, words)) == Cb(!d.nonzero, d.wide, d.rt, words)
  {
    hide Decode;
    CbFields(w, words);
    Quotients(w);
    Quotients(CbWord(w, words));
    DecodeCbIs(w);
    DecodeCbIs(CbWord(w, words));
  }

  lemma TbFields(w: Insn32, words: nat)
    requires words < 0x4000
    ensures var v := TbWord(w, words);
            && v / 0x2000000 == w / 0x2000000 && Bits(v, 0x1000000, 2) == 1 - Bits(w, 0x1000000, 2)
            && v % 32 == w % 32 && Bits(v, 32, 0x4000) == words && Bits(v, 0x80000, 32) == Bits(w, 0x80000, 32)
  {
    var high, flag, bit, off, low := Fields(w);
    var v := FieldsOf(high, 1 - flag, bit, words, low);
    assert v == TbWord(w, words);
  }

  lemma DecodeTbIs(w: Insn32)
    ensures Decode(w).Tb? <==> Bits(w, 0x2000000, 64) == 0x1B
    ensures Decode(w).Tb? ==>
              Decode(w) == Tb(Bits(w, 0x1000000, 2) == 1, w / 0x80000000 * 32 + Bits(w, 0x80000, 32), w % 32,
                              Signed(Bits(w, 32, 0x4000), 0x4000))
  {
  }

  lemma DecodeTb(w: Insn32, words: nat)
    requires Decode(w).Tb? && words <= 6
    ensures var d := Decode(w); Decode(TbWord(w, words)) == Tb(!d.nonzero, d.bit, d.rt, words)
  {
    hide Decode;
    TbFields(w, words);
    Quotients(w);
    Quotients(TbWord(w, words));
    DecodeTbIs(w);
    DecodeTbIs(TbWord(w, words));
  }
}

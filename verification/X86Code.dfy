/** Just enough x86-64: little-endian immediates, condition flags, and the few encodings
    that appear in a trampoline. */
module X86Code {
  import opened Words
  import opened ByteString

  function Pow256(n: nat): nat {
    if n == 0 then 1 else 256 * Pow256(n - 1)
  }

  // The n low bytes of w, least significant first.
  function Bytes(n: nat, w: nat): (s: seq<Byte>)
    ensures |s| == n
  {
    if n == 0 then [] else [w % 256] + Bytes(n - 1, w / 256)
  }

  function Value(s: seq<Byte>): nat {
    if s == [] then 0 else s[0] + 256 * Value(s[1..])
  }

  /** Reading back stored bytes gives the value modulo their range. */
  lemma {:induction false} BytesReadBack(n: nat, w: nat)
    requires w < Pow256(n)
    ensures Value(Bytes(n, w)) == w
  {
    if n > 0 {
      BytesReadBack(n - 1, w / 256);
      assert Bytes(n, w)[1..] == Bytes(n - 1, w / 256);
    }
  }

  lemma Pow256At4And8()
    ensures Pow256(4) == 0x1_0000_0000 && Pow256(8) == TWO64
  {
    assert Pow256(1) == 256;
    assert Pow256(2) == 0x1_0000;
    assert Pow256(3) == 0x100_0000;
    assert Pow256(4) == 0x1_0000_0000;
    assert Pow256(5) == 0x100_0000_0000;
    assert Pow256(6) == 0x1_0000_0000_0000;
    assert Pow256(7) == 0x100_0000_0000_0000;
  }

  // Two's complement.
  function Signed32(v: int): int {
    if v < 0x8000_0000 then v else v - 0x1_0000_0000
  }

  function Signed64(w: Word): int {
    if w < 0x8000_0000_0000_0000 then w else w - TWO64
  }

  function Unsigned32(d: int): (v: nat)
    requires -0x8000_0000 <= d < 0x8000_0000
    ensures v < 0x1_0000_0000 && Signed32(v) == d
  {
    if d < 0 then d + 0x1_0000_0000 else d
  }

  lemma Disp32ReadsBack(d: int)
    requires -0x8000_0000 <= d < 0x8000_0000
    ensures Signed32(Value(Bytes(4, Unsigned32(d)))) == d
  {
    Pow256At4And8();
    BytesReadBack(4, Unsigned32(d));
  }

  lemma Imm64ReadsBack(w: Word)
    ensures Value(Bytes(8, w)) == w
  {
    Pow256At4And8();
    BytesReadBack(8, w);
  }

  datatype Flags = Flags(carry: bool, zero: bool, sign: bool, overflow: bool, parity: bool)

  // The state a copied prologue works on.
  datatype Cpu = Cpu(r11: Word, others: seq<Word>, memory: map<Word, Byte>, flags: Flags)

  // Conditional jumps by name.
  datatype Jcc = JO | JNO | JB | JAE | JE | JNE | JBE | JA | JS | JNS | JP | JNP | JL | JGE | JLE | JG

  // The condition tests of appendix B of the Intel SDM, Volume 1, by name.
  predicate Taken(j: Jcc, f: Flags) {
    match j
    case JO => f.overflow
    case JNO => !f.overflow
    case JB => f.carry
    case JAE => !f.carry
    case JE => f.zero
    case JNE => !f.zero
    case JBE => f.carry || f.zero
    case JA => !f.carry && !f.zero
    case JS => f.sign
    case JNS => !f.sign
    case JP => f.parity
    case JNP => !f.parity
    case JL => f.sign != f.overflow
    case JGE => f.sign == f.overflow
    case JLE => f.zero || f.sign != f.overflow
    case JG => !f.zero && f.sign == f.overflow
  }

  // The same by the low four bits of a short jump's opcode 70 to 7F: bits 3 to 1 choose
  // the test and bit 0 negates it.
  predicate TakenByCode(code: nat, f: Flags)
    requires code < 16
  {
    var test := match code / 2
      case 0 => f.overflow
      case 1 => f.carry
      case 2 => f.zero
      case 3 => f.carry || f.zero
      case 4 => f.sign
      case 5 => f.parity
      case 6 => f.sign != f.overflow
      case _ => f.zero || f.sign != f.overflow;
    if code % 2 == 0 then test else !test
  }

  datatype Micro =
    | MovR11(w: Word)
    | JmpR11
    | CallR11
    | PushR11
    | PopR11
    | ShortJump(code: nat, rel: nat)
    | PushImm(v: int)
    | CallMem(disp: int)
    | JmpMem(disp: int)
    | DropOne
    | Unknown

  // The instruction at an offset and its length.
  function Fetch(c: seq<Byte>, at: nat): (r: (Micro, nat))
    requires at <= |c|
    ensures r.0.Unknown? || (0 < r.1 && at + r.1 <= |c|)
    ensures r.0.ShortJump? ==> r.0.code < 16
  {
    var left := |c| - at;
    if left >= 10 && c[at] == 0x49 && c[at + 1] == 0xBB then (MovR11(Wrap(Value(c[at + 2..at + 10]))), 10)
    else if left >= 3 && c[at] == 0x41 && c[at + 1] == 0xFF && c[at + 2] == 0xE3 then (JmpR11, 3)
    else if left >= 3 && c[at] == 0x41 && c[at + 1] == 0xFF && c[at + 2] == 0xD3 then (CallR11, 3)
    else if left >= 2 && c[at] == 0x41 && c[at + 1] == 0x53 then (PushR11, 2)
    else if left >= 2 && c[at] == 0x41 && c[at + 1] == 0x5B then (PopR11, 2)
    else if left >= 2 && 0x70 <= c[at] <= 0x7F && c[at + 1] < 128 then (ShortJump(c[at] - 0x70, c[at + 1]), 2)
    else if left >= 5 && c[at] == 0x68 then (PushImm(Signed32(Value(c[at + 1..at + 5]))), 5)
    else if left >= 6 && c[at] == 0xFF && c[at + 1] == 0x15 then (CallMem(Signed32(Value(c[at + 2..at + 6]))), 6)
    else if left >= 6 && c[at] == 0xFF && c[at + 1] == 0x25 then (JmpMem(Signed32(Value(c[at + 2..at + 6]))), 6)
    else if left >= 5 && c[at..at + 5] == [0x48, 0x8D, 0x64, 0x24, 0x08] then (DropOne, 5)
    else (Unknown, 0)
  }
}

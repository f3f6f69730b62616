/** The x86-64 trampoline builder: bytes appended to a fixed buffer and patched in place. */
module X86Builder {
  import opened Words
  import opened ByteString
  import opened Options
  import opened X86Code
  import opened X86Relocation

  class CodeBuffer {
    const data: array<Byte>
    var offset: nat

    ghost predicate Valid()
      reads this
    {
      offset <= data.Length
    }

    ghost function Emitted(): seq<Byte>
      requires Valid()
      reads this, data
    {
      data[..offset]
    }

    constructor (capacity: nat)
      ensures Valid() && fresh(data) && data.Length == capacity && Emitted() == []
    {
      data := new Byte[capacity](_ => 0x90);
      offset := 0;
    }

    method EmitBytes(bytes: seq<Byte>) returns (ok: bool)
      requires Valid()
      modifies this, data
      ensures Valid() && (ok <==> old(offset) + |bytes| <= data.Length)
      ensures Emitted() == old(Emitted()) + if ok then bytes else []
    {
      if offset + |bytes| > data.Length {
        return false;
      }
      forall k | 0 <= k < |bytes| {
        data[offset + k] := bytes[k];
      }
      offset := offset + |bytes|;
      assert data[..offset] == old(data[..offset]) + bytes;
      return true;
    }

    // Overwrites emitted bytes.
    method Patch(at: nat, bytes: seq<Byte>)
      requires Valid() && at + |bytes| <= offset
      modifies data
      ensures Emitted() == Overwrite(old(Emitted()), at, bytes)
    {
      forall k | 0 <= k < |bytes| {
        data[at + k] := bytes[k];
      }
    }

    // One instruction at `at` whose copy will run at `to`.
    method EmitOne(i: Insn, at: int, to: int) returns (ok: bool)
      requires Valid() && Decoded(i)
      modifies this, data
      ensures Valid() && old(offset) <= offset
      ensures ok <==> Relocate(i, at, to).Some? && old(offset) + |Relocate(i, at, to).value| <= data.Length
      ensures ok ==> Emitted() == old(Emitted()) + Relocate(i, at, to).value
      ensures data.Length >= offset && Emitted()[..old(offset)] == old(Emitted())
    {
      hide Bytes;
      match i
      case Call(_, target) => ok := EmitBytes(AbsCall(target));
      case Jmp(_, target) => ok := EmitBytes(AbsJump(target));
      case JumpIf(_, jcc, target) => ok := EmitBytes([InverseOpcode(jcc), 13] + AbsJump(target));
      case JumpCx(_, _) => ok := false;
      case Plain(bytes, _) => ok := EmitBytes(bytes);
      case RipRelative(bytes, dispAt, dispSize, _) => ok := EmitRebased(i, at, to);
    }

    // A copy with its displacement field adjusted afterwards.
    method EmitRebased(i: Insn, at: int, to: int) returns (ok: bool)
      requires Valid() && Decoded(i) && i.RipRelative?
      modifies this, data
      ensures Valid() && old(offset) <= offset
      ensures ok <==> Relocate(i, at, to).Some? && old(offset) + |Relocate(i, at, to).value| <= data.Length
      ensures ok ==> Emitted() == old(Emitted()) + Relocate(i, at, to).value
      ensures Emitted()[..old(offset)] == old(Emitted())
    {
      hide Bytes;
      hide Overwrite;
      ghost var before, start := Emitted(), offset;
      var insnOffset := offset;
      ok := EmitBytes(i.bytes);
      if !ok {
        return;
      }
      if i.dispSize != 4 {
        return false;
      }
      var target := Refers(i.bytes, i.dispAt, at);
      hide Refers;
      var disp := Signed64(Wrap(target - (to + |i.bytes|)));
      if disp < -0x8000_0000 || disp >= 0x8000_0000 {
        return false;
      }
      Patch(insnOffset + i.dispAt, Bytes(4, Unsigned32(disp)));
      PatchedTail(before, i.bytes, i.dispAt, Bytes(4, Unsigned32(disp)));
    }
  }

  // Patching inside the last piece patches the piece.
  lemma PatchedTail(before: seq<Byte>, piece: seq<Byte>, at: nat, field: seq<Byte>)
    requires at + |field| <= |piece|
    ensures var all, from := before + piece, |before| + at;
            && Overwrite(all, from, field) == before + (piece[..at] + field + piece[at + |field|..])
            && Overwrite(all, from, field)[..|before|] == before
  {
    var all, from := before + piece, |before| + at;
    assert all[..from] == before + piece[..at];
    assert all[from + |field|..] == piece[at + |field|..];
  }

  /** Relocates a whole prologue into the buffer; it fails only for an instruction that
      cannot be relocated or for lack of space. */
  method EmitRelocated(buf: CodeBuffer, code: seq<Insn>, at: int, to: int) returns (ok: bool)
    requires buf.Valid() && forall i | i in code :: Decoded(i)
    modifies buf, buf.data
    ensures buf.Valid()
    ensures var body := RelocateAll(code, at, to);
            && (ok <==> body.Some? && old(buf.offset) + |body.value| <= buf.data.Length)
            && (ok ==> buf.Emitted() == old(buf.Emitted()) + body.value)
  {
    hide Relocate;
    hide RelocateAll;
    hide Decoded;
    ghost var before := buf.Emitted();
    ghost var done: seq<Byte> := [];
    var start := buf.offset;
    var k, from, dest := 0, at, to;
    assert code[0..] == code;
    PrependedNothing(RelocateAll(code, at, to));
    while k < |code|
      invariant 0 <= k <= |code| && buf.Valid()
      invariant buf.Emitted() == before + done
      invariant RelocateAll(code, at, to) == Prepended(done, RelocateAll(code[k..], from, dest))
      invariant |before| == start == old(buf.offset) && dest == to + |done|
    {
      RelocateHead(code[k..], from, dest);
      assert code[k..][1..] == code[k + 1..];
      ok := buf.EmitOne(code[k], from, dest);
      if !ok {
        PrependedLonger(done, code[k..], from, dest);
        return;
      }
      ghost var piece := Relocate(code[k], from, dest).value;
      PrependedTwice(done, piece, RelocateAll(code[k + 1..], from + Size(code[k]), dest + |piece|));
      done := done + piece;
      from, dest, k := from + Size(code[k]), to + (buf.offset - start), k + 1;
    }
    NothingToRelocate(from, dest);
    assert done + [] == done;
    return true;
  }

  lemma NothingToRelocate(at: int, to: int)
    ensures RelocateAll([], at, to) == Some([])
  {
  }

  ghost function Prepended(done: seq<Byte>, rest: Option<seq<Byte>>): Option<seq<Byte>> {
    if rest.None? then None else Some(done + rest.value)
  }

  lemma PrependedTwice(done: seq<Byte>, piece: seq<Byte>, rest: Option<seq<Byte>>)
    ensures Prepended(done, Prepended(piece, rest)) == Prepended(done + piece, rest)
  {
    if rest.Some? {
      assert done + (piece + rest.value) == done + piece + rest.value;
    }
  }

  lemma RelocateHead(code: seq<Insn>, at: int, to: int)
    requires code != [] && forall i | i in code :: Decoded(i)
    ensures var first := Relocate(code[0], at, to);
            RelocateAll(code, at, to) ==
              if first.None? then None
              else Prepended(first.value, RelocateAll(code[1..], at + Size(code[0]), to + |first.value|))
  {
    hide Relocate;
  }

  lemma PrependedLonger(done: seq<Byte>, code: seq<Insn>, at: int, to: int)
    requires code != [] && forall i | i in code :: Decoded(i)
    ensures var all := Prepended(done, RelocateAll(code, at, to));
            all.Some? ==> Relocate(code[0], at, to).Some? && |all.value| >= |done| + |Relocate(code[0], at, to).value|
  {
    RelocateHead(code, at, to);
    hide Relocate;
  }

  lemma PrependedNothing(rest: Option<seq<Byte>>)
    ensures Prepended([], rest) == rest
  {
    if rest.Some? {
      assert [] + rest.value == rest.value;
    }
  }

  /* The templates, and the fields patched into them. */

  const PrefixTemplate: seq<Byte> :=
    [0x68, 0, 0, 0, 0] + [0xFF, 0x15, 0, 0, 0, 0] + [0x48, 0x8D, 0x64, 0x24, 0x08]

  const SuffixTemplate: seq<Byte> :=
    [0xFF, 0x25, 0, 0, 0, 0] + [0, 0, 0, 0, 0, 0, 0, 0] + [0, 0, 0, 0, 0, 0, 0, 0]

  lemma PrefixFilled(id: seq<Byte>, disp: seq<Byte>)
    requires |id| == |disp| == 4
    ensures Overwrite(Overwrite(PrefixTemplate, 1, id), 7, disp)
            == [0x68] + id + [0xFF, 0x15] + disp + [0x48, 0x8D, 0x64, 0x24, 0x08]
  {
  }

  lemma SuffixFilled(disp: seq<Byte>, stub: seq<Byte>, back: seq<Byte>)
    requires |disp| == 4 && |stub| == |back| == 8
    ensures Overwrite(Overwrite(Overwrite(SuffixTemplate, 2, disp), 6, stub), 14, back) == [0xFF, 0x25] + disp + stub + back
  {
  }

  // A field inside the first or the last part of the trampoline.
  lemma ReplacedInside(a: seq<Byte>, b: seq<Byte>, at: nat, field: seq<Byte>)
    ensures at + |field| <= |a| ==> Overwrite(a + b, at, field) == Overwrite(a, at, field) + b
    ensures at + |field| <= |b| ==> Overwrite(a + b, |a| + at, field) == a + Overwrite(b, at, field)
  {
  }

  lemma Filled(id: Word, body: seq<Byte>, stub: Word, back: Word)
    ensures Laid(id, body, stub, back) == FilledIn(PrefixOf(id) + body + SuffixTemplate, PREFIX + |body|, stub, back)
  {
    hide Bytes;
    hide Overwrite;
    var head := Overwrite(PrefixTemplate, 1, Bytes(4, id % 0x1_0000_0000));
    var full := Overwrite(head, 7, Bytes(4, PREFIX + |body| + 6 - 11));
    var front := full + body;
    var tail := SuffixTemplate;
    assert head + body + tail == head + (body + tail) && full + (body + tail) == front + tail;
    ReplacedInside(head, body + tail, 7, Bytes(4, PREFIX + |body| + 6 - 11));
    ReplacedInside(front, tail, 2, Bytes(4, 8));
    var tail1 := Overwrite(tail, 2, Bytes(4, 8));
    ReplacedInside(front, tail1, 6, Bytes(8, stub));
    var tail2 := Overwrite(tail1, 6, Bytes(8, stub));
    ReplacedInside(front, tail2, 14, Bytes(8, back));
    PrefixFilled(Bytes(4, id % 0x1_0000_0000), Bytes(4, PREFIX + |body| + 6 - 11));
    SuffixFilled(Bytes(4, 8), Bytes(8, stub), Bytes(8, back));
  }

  /** Builds exactly the trampoline whose behaviour is proved, or fails; in the 512 bytes of
      a slot it fails only for wrong arguments and instructions that cannot be relocated. */
  method BuildTrampoline(buf: CodeBuffer, id: Word, code: seq<Insn>, at: Word, stub: Word, base: Word) returns (ok: bool)
    requires buf.Valid() && buf.offset == 0 && forall i | i in code :: Decoded(i)
    modifies buf, buf.data
    ensures buf.Valid()
    ensures var t := Trampoline(id, code, at, stub, base);
            && (ok <==> t.Some? && |t.value| <= buf.data.Length)
            && (ok ==> buf.Emitted() == t.value)
            && (buf.data.Length >= 512 ==> (ok <==> t.Some?))
  {
    hide Bytes;
    hide RelocateAll;
    hide Laid;
    hide Overwrite;
    hide TotalSize;
    hide Trampoline;
    TrampolineIs(id, code, at, stub, base);
    if stub == 0 || base == 0 || TotalSize(code) == 0 || TotalSize(code) > ORIG_CODE_MAX {
      return false;
    }
    ok := EmitPrefix(buf, id);
    if !ok {
      return;
    }
    ok := EmitRelocated(buf, code, at, base + PREFIX);
    if !ok {
      return;
    }
    ok := EmitSuffix(buf, stub, Wrap(at + TotalSize(code)));
    if ok {
      Filled(id, RelocateAll(code, at, base + PREFIX).value, stub, Wrap(at + TotalSize(code)));
    }
  }

  // When there is a trampoline, and how long it is.
  lemma TrampolineIs(id: Word, code: seq<Insn>, at: Word, stub: Word, base: Word)
    requires forall i | i in code :: Decoded(i)
    ensures var t, body := Trampoline(id, code, at, stub, base), RelocateAll(code, at, base + PREFIX);
            && (t.Some? <==> stub != 0 && base != 0 && 0 < TotalSize(code) <= 32 && body.Some?)
            && (t.Some? ==> t.value == Laid(id, body.value, stub, Wrap(at + TotalSize(code))))
            && (t.Some? ==> |t.value| == PREFIX + |body.value| + SUFFIX <= 512)
  {
    hide RelocateAll;
    hide Laid;
    if RelocateAll(code, at, base + PREFIX).Some? {
      CopyIsShort(code, at, base + PREFIX);
    }
  }

  // The template with the low half of the probe id in it.
  function PrefixOf(id: Word): (s: seq<Byte>)
    ensures |s| == PREFIX
  {
    Overwrite(PrefixTemplate, 1, Bytes(4, id % 0x1_0000_0000))
  }

  method EmitPrefix(buf: CodeBuffer, id: Word) returns (ok: bool)
    requires buf.Valid() && buf.offset == 0
    modifies buf, buf.data
    ensures buf.Valid() && (ok <==> PREFIX <= buf.data.Length)
    ensures ok ==> buf.Emitted() == PrefixOf(id)
  {
    hide Bytes;
    hide Overwrite;
    ok := buf.EmitBytes(PrefixTemplate);
    if ok {
      buf.Patch(1, Bytes(4, id % 0x1_0000_0000));
    }
  }

  method EmitSuffix(buf: CodeBuffer, stub: Word, back: Word) returns (ok: bool)
    requires buf.Valid() && buf.offset >= PREFIX
    modifies buf, buf.data
    ensures buf.Valid() && (ok <==> old(buf.offset) + SUFFIX <= buf.data.Length)
    ensures ok ==> buf.Emitted() == FilledIn(old(buf.Emitted()) + SuffixTemplate, old(buf.offset), stub, back)
  {
    hide FilledIn;
    var n := buf.offset;
    ok := buf.EmitBytes(SuffixTemplate);
    if ok {
      FillIn(buf, n, stub, back);
    }
  }

  // The displacements and literals of a trampoline whose body ends at n.
  function FilledIn(s: seq<Byte>, n: nat, stub: Word, back: Word): seq<Byte>
    requires PREFIX <= n && n + SUFFIX == |s|
  {
    Overwrite(Overwrite(Overwrite(Overwrite(s, 7, Bytes(4, n + 6 - 11)), n + 2, Bytes(4, 8)),
                        n + 6, Bytes(8, stub)), n + 14, Bytes(8, back))
  }

  // The displacements and literals, once the length of the body is known.
  method FillIn(buf: CodeBuffer, n: nat, stub: Word, back: Word)
    requires buf.Valid() && PREFIX <= n && buf.offset == n + SUFFIX
    modifies buf.data
    ensures buf.Valid()
    ensures buf.Emitted() == FilledIn(old(buf.Emitted()), n, stub, back)
  {
    hide Bytes;
    hide Overwrite;
    buf.Patch(7, Bytes(4, n + 6 - 11));
    buf.Patch(n + 2, Bytes(4, n + 14 - (n + 6)));
    buf.Patch(n + 6, Bytes(8, stub));
    buf.Patch(n + 14, Bytes(8, back));
  }
}

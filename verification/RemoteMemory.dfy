/** Writing the target's memory: one bulk call first, then word by word with ptrace, where
    a short tail is merged into the word that is already there. */
module RemoteMemory {
  import opened ByteString

  const WORD: nat := 8

  // How many of len bytes the bulk call writes at `at` if it can write up to `bulk`.
  function BulkCount(size: nat, at: nat, len: nat, bulk: nat): (n: nat)
    ensures n <= len && n <= bulk && (n > 0 ==> at + n <= size)
    ensures bulk >= len && at + len <= size ==> n == len
  {
    var n := if bulk < len then bulk else len;
    if at + n <= size then n else if at < size then size - at else 0
  }

  // A word fails if it does not lie in the memory or a ptrace call for it fails: a poke,
  // and for a short tail a peek before it.
  predicate WordFails(size: nat, at: nat, len: nat, copied: nat, faults: nat -> bool, calls: nat) {
    at + copied + WORD > size || faults(calls + 1) || (copied + WORD > len && faults(calls + 2))
  }

  // How many of len bytes have been poked when the loop ends, `copied` of them so far.
  function Poked(size: nat, at: nat, len: nat, copied: nat, faults: nat -> bool, calls: nat): (n: nat)
    requires copied <= len
    ensures copied <= n <= len && (copied < n ==> at + n <= size)
    decreases len - copied
  {
    if copied == len || WordFails(size, at, len, copied, faults, calls) then copied
    else if copied + WORD > len then len
    else Poked(size, at, len, copied + WORD, faults, calls + 1)
  }

  // How many of len bytes are in the target after a write, and whether it is a success.
  function Left(size: nat, at: nat, len: nat, bulk: nat, faults: nat -> bool, calls: nat): (n: nat)
    ensures n <= len && (n > 0 ==> at + n <= size)
  {
    var b, w := BulkCount(size, at, len, bulk), Poked(size, at, len, 0, faults, calls);
    if b == len || b > w then b else w
  }

  predicate Succeeds(size: nat, at: nat, len: nat, bulk: nat, faults: nat -> bool, calls: nat) {
    len > 0 && (BulkCount(size, at, len, bulk) == len || Poked(size, at, len, 0, faults, calls) == len)
  }

  /** Nothing is left behind exactly if the bulk call wrote nothing and the first word
      failed. */
  lemma NothingLeft(size: nat, at: nat, len: nat, bulk: nat, faults: nat -> bool, calls: nat)
    requires len > 0
    ensures Left(size, at, len, bulk, faults, calls) == 0 <==>
              BulkCount(size, at, len, bulk) == 0 && WordFails(size, at, len, 0, faults, calls)
  {
  }

  // Word k of a write goes through: it lies in the memory, its poke succeeds, and if it is
  // a short tail the peek before it does too.
  ghost predicate WordWritten(size: nat, at: nat, len: nat, faults: nat -> bool, calls: nat, k: nat) {
    at + 8 * k + 8 <= size && !faults(calls + k + 1) && (8 * k + 8 > len ==> !faults(calls + k + 2))
  }

  /** Writing word by word stops at the first word that does not go through, and succeeds
      exactly if there is none. */
  lemma PokedUpTo(size: nat, at: nat, len: nat, faults: nat -> bool, calls: nat, m: nat)
    requires forall k: nat | k < m :: WordWritten(size, at, len, faults, calls, k)
    requires if 8 * m < len then !WordWritten(size, at, len, faults, calls, m) else m == 0 || 8 * (m - 1) < len
    ensures Poked(size, at, len, 0, faults, calls) == if 8 * m < len then 8 * m else len
    ensures len > 0 && 8 * m >= len ==> Succeeds(size, at, len, 0, faults, calls)
  {
    PokedFrom(size, at, len, faults, calls, m, 0);
  }

  lemma {:induction false} PokedFrom(size: nat, at: nat, len: nat, faults: nat -> bool, calls: nat, m: nat, j: nat)
    requires forall k: nat | j <= k < m :: WordWritten(size, at, len, faults, calls, k)
    requires if 8 * m < len then !WordWritten(size, at, len, faults, calls, m) else m == 0 || 8 * (m - 1) < len
    requires j <= m && 8 * j <= len
    ensures Poked(size, at, len, 8 * j, faults, calls + j) == if 8 * m < len then 8 * m else len
    decreases m - j
  {
    if j < m {
      assert WordWritten(size, at, len, faults, calls, j);
      if 8 * j + 8 <= len {
        PokedFrom(size, at, len, faults, calls, m, j + 1);
        assert 8 * j + 8 == 8 * (j + 1) && calls + j + 1 == calls + (j + 1);
      }
    }
  }

  // The target's memory, stopped. Call number n of ptrace fails if faults(n); the bulk
  // call transfers any number of bytes up to `bulk`.
  class Target {
    const memory: array<Byte>
    const faults: nat -> bool
    var calls: nat

    constructor (size: nat, faults: nat -> bool)
      ensures memory.Length == size && fresh(memory) && this.faults == faults && calls == 0
      ensures forall x | 0 <= x < size :: memory[x] == 0
    {
      memory := new Byte[size](_ => 0);
      this.faults, calls := faults, 0;
    }

    // process_vm_writev: writes a prefix and says how long it is.
    method BulkWrite(at: nat, bytes: seq<Byte>, bulk: nat) returns (n: nat)
      modifies memory
      ensures n == BulkCount(memory.Length, at, |bytes|, bulk)
      ensures memory[..] == Covered(old(memory[..]), at, bytes, n)
    {
      n := if bulk < |bytes| then bulk else |bytes|;
      if at + n > memory.Length {
        n := if at < memory.Length then memory.Length - at else 0;
      }
      forall k | 0 <= k < n {
        memory[at + k] := bytes[k];
      }
    }

    method Peek(at: nat) returns (ok: bool, word: seq<Byte>)
      modifies this
      ensures calls == old(calls) + 1 && (ok <==> !faults(calls) && at + WORD <= memory.Length)
      ensures word == if ok then memory[at..at + WORD] else []
    {
      calls := calls + 1;
      if faults(calls) || at + WORD > memory.Length {
        return false, [];
      }
      return true, memory[at..at + WORD];
    }

    method Poke(at: nat, word: seq<Byte>) returns (ok: bool)
      requires |word| == WORD
      modifies this, memory
      ensures calls == old(calls) + 1 && (ok <==> !faults(calls) && at + WORD <= memory.Length)
      ensures memory[..] == if ok then Overwrite(old(memory[..]), at, word) else old(memory[..])
    {
      calls := calls + 1;
      if faults(calls) || at + WORD > memory.Length {
        return false;
      }
      forall k | 0 <= k < WORD {
        memory[at + k] := word[k];
      }
      return true;
    }

    /** The memory afterwards is the old one with exactly the first `left` bytes in place:
        all of them if the write succeeds, else the larger of what the bulk call and the
        pokes got done. So a failed write changes nothing exactly if the bytes it left were
        there before. */
    method Write(at: nat, bytes: seq<Byte>, bulk: nat) returns (ok: bool, ghost left: nat)
      modifies this, memory
      ensures left == Left(memory.Length, at, |bytes|, bulk, faults, old(calls))
      ensures ok <==> Succeeds(memory.Length, at, |bytes|, bulk, faults, old(calls))
      ensures ok ==> left == |bytes|
      ensures memory[..] == Covered(old(memory[..]), at, bytes, left)
      ensures memory[..] == old(memory[..]) <==> left == 0 || old(memory[at..at + left]) == bytes[..left]
    {
      ghost var start, size, len := memory[..], memory.Length, |bytes|;
      left := Left(size, at, len, bulk, faults, calls);
      CoveredChanges(start, at, bytes, left);
      hide Covered;
      hide Overwrite;
      if bytes == [] {
        CoveredNothing(start, at, bytes);
        return false, left;
      }
      var n := BulkWrite(at, bytes, bulk);
      if n == |bytes| {
        return true, left;
      }
      ghost var w, all := n, Poked(size, at, len, 0, faults, calls);
      var copied := 0;
      while copied < |bytes|
        invariant copied <= |bytes| && w == (if n > copied then n else copied)
        invariant w > 0 ==> at + w <= memory.Length
        invariant memory[..] == Covered(start, at, bytes, w)
        invariant all == Poked(size, at, len, copied, faults, calls)
        decreases |bytes| - copied
      {
        ok := WriteChunk(start, at, bytes, copied, w);
        if !ok {
          return false, left;
        }
        copied := if |bytes| - copied > WORD then copied + WORD else |bytes|;
        w := if copied > w then copied else w;
      }
      return true, left;
    }

    // One word; w bytes in all are known to be written so far.
    method WriteChunk(ghost start: seq<Byte>, at: nat, bytes: seq<Byte>, copied: nat, ghost w: nat) returns (ok: bool)
      requires copied <= w <= |bytes| && copied < |bytes| && |start| == memory.Length
      requires (w > 0 ==> at + w <= memory.Length) && memory[..] == Covered(start, at, bytes, w)
      modifies this, memory
      ensures ok <==> !WordFails(memory.Length, at, |bytes|, copied, faults, old(calls))
      ensures ok ==> calls == old(calls) + if copied + WORD > |bytes| then 2 else 1
      ensures var next := if |bytes| - copied > WORD then copied + WORD else |bytes|;
              var w' := if next > w then next else w;
              if ok then at + w' <= memory.Length && memory[..] == Covered(start, at, bytes, w')
              else memory[..] == old(memory[..])
    {
      hide Overwrite;
      hide Covered;
      var size := if |bytes| - copied > WORD then WORD else |bytes| - copied;
      ghost var was := memory[..];
      var chunk;
      ok, chunk := Merged(at + copied, bytes[copied..copied + size]);
      if !ok {
        return;
      }
      ok := Poke(at + copied, chunk);
      if ok {
        ChunkAdds(start, at, bytes, w, copied, size, was, chunk);
      }
    }

    // The word to poke: the part itself, or a short part followed by what is there.
    method Merged(at: nat, part: seq<Byte>) returns (ok: bool, chunk: seq<Byte>)
      requires 0 < |part| <= WORD
      modifies this
      ensures calls == old(calls) + if |part| < WORD then 1 else 0
      ensures ok <==> |part| == WORD || (!faults(calls) && at + WORD <= memory.Length)
      ensures ok ==> |chunk| == WORD
      ensures ok && at + WORD <= memory.Length ==> chunk == part + memory[..][at + |part|..at + WORD]
    {
      if |part| == WORD {
        return true, part;
      }
      var word;
      ok, word := Peek(at);
      chunk := if ok then part + word[|part|..] else [];
    }
  }

  /** A failed write that changes the target: sixteen bytes of which the second word's poke
      fails leave eight. */
  method FailedWriteLeavesAWord() returns (t: Target, ok: bool)
    ensures !ok && t.memory.Length == 16
    ensures forall x | 0 <= x < 16 :: t.memory[x] == if x < 8 then 1 else 0
  {
    t := new Target(16, n => n == 2);
    var bytes: seq<Byte> := seq(16, _ => 1);
    assert Poked(16, 0, 16, 8, t.faults, 1) == 8;
    ghost var left;
    ok, left := t.Write(0, bytes, 0);
    assert left == 8;
    assert forall x | 0 <= x < 16 :: t.memory[x] == t.memory[..][x];
  }

  // start with the first w of the bytes over it.
  ghost function Covered(start: seq<Byte>, at: nat, bytes: seq<Byte>, w: nat): (r: seq<Byte>)
    requires w <= |bytes| && (w > 0 ==> at + w <= |start|)
    ensures |r| == |start|
  {
    if w == 0 then start else Overwrite(start, at, bytes[..w])
  }

  lemma CoveredNothing(start: seq<Byte>, at: nat, bytes: seq<Byte>)
    ensures Covered(start, at, bytes, 0) == start
  {
  }

  lemma CoveredChanges(start: seq<Byte>, at: nat, bytes: seq<Byte>, w: nat)
    requires w <= |bytes| && (w > 0 ==> at + w <= |start|)
    ensures Covered(start, at, bytes, w) == start <==> w == 0 || start[at..at + w] == bytes[..w]
  {
    if w > 0 {
      var now := Covered(start, at, bytes, w);
      assert forall x | 0 <= x < w :: now[at + x] == bytes[..w][x] && start[at..at + w][x] == start[at + x];
    }
  }

  lemma ChunkAdds(start: seq<Byte>, at: nat, bytes: seq<Byte>, w: nat, copied: nat, size: nat, was: seq<Byte>, chunk: seq<Byte>)
    requires copied <= w <= |bytes| && size <= WORD && copied + size <= |bytes| && size > 0
    requires (w > 0 ==> at + w <= |start|) && was == Covered(start, at, bytes, w)
    requires |chunk| == WORD && at + copied + WORD <= |start| && |was| == |start|
    requires chunk == bytes[copied..copied + size] + was[at + copied + size..at + copied + WORD]
    ensures var w' := if copied + size > w then copied + size else w;
            at + w' <= |start| && Overwrite(was, at + copied, chunk) == Covered(start, at, bytes, w')
  {
    var w' := if copied + size > w then copied + size else w;
    var now, expected := Overwrite(was, at + copied, chunk), Covered(start, at, bytes, w');
    forall x | 0 <= x < |start| ensures now[x] == expected[x] {
      ChunkByte(start, at, bytes, w, copied, size, was, chunk, x);
    }
  }

  // One byte of the memory after a word has been poked.
  lemma ChunkByte(start: seq<Byte>, at: nat, bytes: seq<Byte>, w: nat, copied: nat, size: nat, was: seq<Byte>, chunk: seq<Byte>, x: nat)
    requires copied <= w <= |bytes| && size <= WORD && copied + size <= |bytes| && size > 0
    requires (w > 0 ==> at + w <= |start|) && was == Covered(start, at, bytes, w)
    requires |chunk| == WORD && at + copied + WORD <= |start| && |was| == |start| && x < |start|
    requires chunk == bytes[copied..copied + size] + was[at + copied + size..at + copied + WORD]
    ensures var w' := if copied + size > w then copied + size else w;
            at + w' <= |start| && Overwrite(was, at + copied, chunk)[x] == Covered(start, at, bytes, w')[x]
  {
    var w' := if copied + size > w then copied + size else w;
    var k := x - at - copied;
    if 0 <= k < size {
      assert chunk[k] == bytes[copied + k];
      assert bytes[..w'][x - at] == bytes[x - at];
    } else if size <= k < WORD {
      assert chunk[k] == was[x];
    }
    if at <= x < at + w {
      assert bytes[..w][x - at] == bytes[..w'][x - at] == bytes[x - at];
    }
  }
}

/**
 The flat 64 KiB memory. Every access takes a 16-bit address, so it is
 always in range; a 16-bit access at 0xFFFF takes its high byte from
 address 0. Words are little-endian.
 */
module Memory {
  import opened Isa

  /** Exactly 65536 bytes. */
  type Mem = m: seq<Byte> | |m| == MemorySize witness seq(65536, _ => 0)

  /** The address k bytes after `a`, wrapping as u16 arithmetic does. */
  function Advance(a: Word, k: nat): Word
  {
    (a + k) % MemorySize
  }

  // ---------------------------------------------------------------------------
  // Loading
  // ---------------------------------------------------------------------------

  datatype LoadResult = Loaded(mem: Mem) | Overflow
  {
    /** The status code the loader reports: 0 on success, -1 on overflow. */
    function Status(): int
    {
      if Overflow? then -1 else 0
    }
  }

  /**
   Copies `buff` into memory starting at `start`. The buffer length is a
   16-bit count; a copy that would run past the end of memory is refused
   and nothing is written.
   */
  function LoadFromBuffer(m: Mem, buff: seq<Byte>, start: Word): (r: LoadResult)
    requires |buff| < MemorySize
    ensures r.Status() == -1 <==> start + |buff| > MemorySize
    ensures r.Status() == 0 <==> r.Loaded?
    ensures r.Loaded? ==>
      forall i :: 0 <= i < |buff| ==> r.mem[start + i] == buff[i]
    ensures r.Loaded? ==>
      forall a :: 0 <= a < MemorySize && !(start <= a < start + |buff|) ==> r.mem[a] == m[a]
  {
    if start + |buff| > MemorySize then Overflow
    else
      var m' := m[..start] + buff + m[start + |buff|..];
      assert forall i :: 0 <= i < |buff| ==> m'[start + i] == buff[i];
      Loaded(m')
  }

  // ---------------------------------------------------------------------------
  // Byte and word access
  // ---------------------------------------------------------------------------

  function ReadU8(m: Mem, a: Word): Byte
  {
    m[a]
  }

  /** Low byte at `a`, high byte at the next address (wrapping). */
  function ReadU16(m: Mem, a: Word): Word
  {
    ReadU8(m, a) + 256 * ReadU8(m, Advance(a, 1))
  }

  function WriteU8(m: Mem, a: Word, v: Byte): (m': Mem)
    ensures ReadU8(m', a) == v
    ensures forall i :: 0 <= i < MemorySize && i != a ==> m'[i] == m[i]
  {
    m[a := v]
  }

  function WriteU16(m: Mem, a: Word, v: Word): (m': Mem)
    ensures m'[a] == v % 256
    ensures m'[(a + 1) % MemorySize] == v / 256
    ensures forall i :: 0 <= i < MemorySize && i != a && i != (a + 1) % MemorySize ==> m'[i] == m[i]
  {
    WriteU8(WriteU8(m, a, v % 256), Advance(a, 1), v / 256)
  }

  /** A value read together with the cursor advanced past it. */
  datatype Pulled<T> = Pulled(value: T, next: Word)

  function PullU8(m: Mem, c: Word): (p: Pulled<Byte>)
    ensures p.value == m[c]
    ensures p.next == (c + 1) % MemorySize
  {
    Pulled(ReadU8(m, c), Advance(c, 1))
  }

  function PullU16(m: Mem, c: Word): (p: Pulled<Word>)
    ensures p.value == m[c] as int + 256 * m[(c + 1) % MemorySize] as int
    ensures p.next == (c + 2) % MemorySize
  {
    Pulled(ReadU16(m, c), Advance(c, 2))
  }

  // ---------------------------------------------------------------------------
  // Properties
  // ---------------------------------------------------------------------------

  /** Advancing a cursor by j and then by k is advancing it by j + k, wrapping included. */
  lemma AdvanceAdds(a: Word, j: nat, k: nat)
    ensures Advance(Advance(a, j), k) == Advance(a, j + k)
  {
  }

  /** The word at 0xFFFF takes its high byte from address 0. */
  lemma ReadU16WrapsAtTop(m: Mem)
    ensures ReadU16(m, 0xFFFF) == m[0xFFFF] as int + 256 * m[0] as int
  {
  }

  /** A byte written is the byte read back; no other address changes. */
  lemma WriteThenReadU8(m: Mem, a: Word, v: Byte, b: Word)
    ensures ReadU8(WriteU8(m, a, v), b) == if b == a then v else ReadU8(m, b)
  {
  }

  /** A word written is the word read back, also at the top of memory. */
  lemma WriteThenReadU16(m: Mem, a: Word, v: Word)
    ensures ReadU16(WriteU16(m, a, v), a) == v
  {
  }

  /** Writing a word leaves every address outside its two (possibly wrapped) bytes alone. */
  lemma WriteU16Frame(m: Mem, a: Word, v: Word, b: Word)
    requires b != a && b != Advance(a, 1)
    ensures ReadU8(WriteU16(m, a, v), b) == ReadU8(m, b)
  {
  }
}

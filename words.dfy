/**
  Word-granular tracee memory, as the ptrace PEEKDATA/POKEDATA interface
  presents it: memory is read and written one 64-bit word at a time, so a
  single byte is patched by a read-modify-write of the word that holds it
  (deet/src/inferior.rs, `align_addr_to_word` and `Inferior::write_byte`).
*/
module Words {

  /** A machine word (usize / u64 on x86-64, 8 bytes) and a byte. */
  type Word = bv64
  type Byte = bv8

  /**
    An address used as a map key (memory slots, breakpoint table). The
    wrapper gives the verifier datatype equality on keys.
  */
  datatype Addr = Addr(value: Word)

  /** Tracee memory: the word stored at each readable word-aligned address. */
  type Memory = map<Addr, Word>

  /** Failures of the tracing interface: ESRCH (no such tracee) and EIO (address not mapped). */
  datatype TraceError = NoSuchProcess | BadAddress

  datatype Result<T> = Ok(value: T) | Err(error: TraceError)

  /**
    Rounds an address down to its word boundary by masking with
    `-(size_of::<usize>() as isize) as usize`.
  */
  function AlignAddrToWord(addr: Word): Word {
    addr & -8
  }

  /** The aligned address is a multiple of 8, at most `addr`, and less than a word below it. */
  lemma AlignAddrToWordBounds(addr: Word)
    ensures AlignAddrToWord(addr) % 8 == 0
    ensures AlignAddrToWord(addr) <= addr && addr - AlignAddrToWord(addr) < 8
  {
  }

  /** The memory slot that holds the byte at `addr`. */
  function SlotOf(addr: Word): Addr {
    Addr(AlignAddrToWord(addr))
  }

  /** Position of the addressed byte inside its word (little-endian lane number). */
  function ByteOffset(addr: Word): (off: Word)
    ensures off < 8
  {
    addr - AlignAddrToWord(addr)
  }

  /** Byte lane `off` of a word: `(word >> 8 * off) & 0xff`. */
  function Lane(w: Word, off: Word): Byte
    requires off < 8
  {
    ((w >> (8 * off)) & 0xff) as Byte
  }

  /** The word with lane `off` replaced by `v`: `word & !(0xff << 8 * off) | (v << 8 * off)`. */
  function PatchWord(w: Word, off: Word, v: Byte): Word
    requires off < 8
  {
    (w & !(0xff << (8 * off))) | ((v as Word) << (8 * off))
  }

  /** The patched word holds `v` in lane `off` and the seven other lanes of `w`. */
  lemma PatchWordLanes(w: Word, off: Word, v: Byte, j: Word)
    requires off < 8 && j < 8
    ensures Lane(PatchWord(w, off, v), j) == if j == off then v else Lane(w, j)
  {
    if j == off {
      PatchedLane(w, off, v);
    } else {
      UntouchedLane(w, off, v, j);
    }
  }

  lemma PatchedLane(w: Word, off: Word, v: Byte)
    requires off < 8
    ensures Lane(PatchWord(w, off, v), off) == v
  {
  }

  lemma UntouchedLane(w: Word, off: Word, v: Byte, j: Word)
    requires off < 8 && j < 8 && j != off
    ensures Lane(PatchWord(w, off, v), j) == Lane(w, j)
  {
  }

  /** Patching a lane back with the byte it held before restores the word exactly. */
  lemma PatchWordRestores(w: Word, off: Word, v: Byte)
    requires off < 8
    ensures PatchWord(PatchWord(w, off, v), off, Lane(w, off)) == w
  {
  }

  /** A byte is readable when the word that holds it is mapped. */
  predicate Readable(m: Memory, addr: Word) {
    SlotOf(addr) in m
  }

  /** The byte stored at `addr`. */
  function ByteAt(m: Memory, addr: Word): Byte
    requires Readable(m, addr)
  {
    Lane(m[SlotOf(addr)], ByteOffset(addr))
  }

  /**
    The memory after a successful byte write: only the word at
    `AlignAddrToWord(addr)` changes. An unreadable address leaves memory as it was.
  */
  function PokeByte(m: Memory, addr: Word, v: Byte): (m': Memory)
    ensures m'.Keys == m.Keys
    ensures forall a :: a in m && a != SlotOf(addr) ==> m'[a] == m[a]
  {
    if Readable(m, addr) then
      m[SlotOf(addr) := PatchWord(m[SlotOf(addr)], ByteOffset(addr), v)]
    else
      m
  }

  /** Byte view of PokeByte: the written byte reads back as `v`; every other byte is unchanged. */
  lemma {:induction false} PokeByteAt(m: Memory, addr: Word, v: Byte, b: Word)
    requires Readable(m, addr) && Readable(m, b)
    ensures Readable(PokeByte(m, addr, v), b)
    ensures ByteAt(PokeByte(m, addr, v), b) == if b == addr then v else ByteAt(m, b)
  {
    var slot := SlotOf(addr);
    var m' := PokeByte(m, addr, v);
    if SlotOf(b) == slot {
      SameWordSameOffset(addr, b);
      PatchWordLanes(m[slot], ByteOffset(addr), v, ByteOffset(b));
      assert m'[slot] == PatchWord(m[slot], ByteOffset(addr), v);
    } else {
      assert m'[SlotOf(b)] == m[SlotOf(b)];
    }
  }

  /** Two addresses in the same word at the same lane are the same address. */
  lemma SameWordSameOffset(a: Word, b: Word)
    requires AlignAddrToWord(a) == AlignAddrToWord(b)
    ensures ByteOffset(a) == ByteOffset(b) <==> a == b
  {
  }

  /** Writing back the byte a write displaced restores the memory exactly, for every lane. */
  lemma {:induction false} PokeByteRoundTrip(m: Memory, addr: Word, v: Byte)
    requires Readable(m, addr)
    ensures PokeByte(PokeByte(m, addr, v), addr, ByteAt(m, addr)) == m
  {
    var base := SlotOf(addr);
    PatchWordRestores(m[base], ByteOffset(addr), v);
  }

  /**
    A word read (`ptrace::read`) at a word-aligned, mapped address returns
    the stored word; any other read fails.
  */
  function ReadWord(m: Memory, addr: Word): Result<Word> {
    if AlignAddrToWord(addr) == addr && Addr(addr) in m then Ok(m[Addr(addr)]) else Err(BadAddress)
  }

  /** The word holding a byte can be read exactly when the byte is readable, and it is the byte's slot. */
  lemma ReadHoldingWord(m: Memory, addr: Word)
    ensures ReadWord(m, AlignAddrToWord(addr)).Ok? <==> Readable(m, addr)
    ensures Readable(m, addr) ==> ReadWord(m, AlignAddrToWord(addr)).value == m[SlotOf(addr)]
  {
    assert AlignAddrToWord(AlignAddrToWord(addr)) == AlignAddrToWord(addr);
  }
}

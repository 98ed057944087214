/** The flat byte-addressed memory and the primitives of utils.c that write it. An address is an
    index of the byte array; the array never extends past the 32-bit address space. */
module Memory {
  import opened Words

  function FromBytes(b0: byte, b1: byte, b2: byte, b3: byte): (v: word) {
    var n0: int, n1: int, n2: int, n3: int := b0, b1, b2, b3;
    n0 + 0x100 * n1 + 0x1_0000 * n2 + 0x100_0000 * n3
  }

  /** The little-endian 32-bit word at address a. */
  function Get32(m: seq<byte>, a: int): (v: word)
    requires 0 <= a && a + 4 <= |m|
  {
    FromBytes(m[a], m[a + 1], m[a + 2], m[a + 3])
  }

  /** Four bytes hold a 32-bit word without loss. */
  lemma BytesOfWord(v: word)
    ensures FromBytes(v % 0x100, v / 0x100 % 0x100, v / 0x1_0000 % 0x100, v / 0x100_0000) == v
  {
    assert v / 0x1_0000 == v / 0x100 / 0x100 && v / 0x100_0000 == v / 0x1_0000 / 0x100;
  }

  /** The word at address a is v. */
  predicate Holds(m: seq<byte>, a: int, v: int) {
    0 <= a && a + 4 <= |m| && Get32(m, a) == v
  }

  predicate Zeroed(m: seq<byte>, lo: int, hi: int) {
    forall x :: 0 <= x < |m| && lo <= x < hi ==> m[x] == 0
  }

  /** The byte at address a is v. */
  predicate ByteIs(m: seq<byte>, a: int, v: int) {
    0 <= a < |m| && m[a] == v
  }

  /** m and m' agree on the addresses lo..hi. */
  predicate Same(m: seq<byte>, m': seq<byte>, lo: int, hi: int) {
    |m| == |m'| && forall x {:trigger m'[x]} :: 0 <= x < |m| && lo <= x < hi ==> m'[x] == m[x]
  }

  /** Everything outside lo..hi is as it was. */
  predicate SameOutside(m: seq<byte>, m': seq<byte>, lo: int, hi: int) {
    Same(m, m', 0, lo) && Same(m, m', hi, |m|)
  }

  /** The len bytes at r in m' are the len bytes at p in m. */
  predicate Copied(m: seq<byte>, m': seq<byte>, p: int, r: int, len: int) {
    && 0 <= len && 0 <= p && p + len <= |m| && 0 <= r && r + len <= |m'|
    && m'[r..r + len] == m[p..p + len]
  }

  /** The words that do not meet lo..hi are as they were. */
  ghost predicate SameWords(m: seq<byte>, m': seq<byte>, lo: int, hi: int)
    requires |m| == |m'|
  {
    forall b {:trigger Get32(m', b)} :: 0 <= b && b + 4 <= |m| && (b + 4 <= lo || hi <= b) ==>
      Get32(m', b) == Get32(m, b)
  }

  method Store32(mem: array<byte>, a: int, v: word)
    requires 0 <= a && a + 4 <= mem.Length
    modifies mem
    ensures Holds(mem[..], a, v) && SameOutside(old(mem[..]), mem[..], a, a + 4)
    ensures SameWords(old(mem[..]), mem[..], a, a + 4)
  {
    BytesOfWord(v);
    mem[a] := v % 0x100;
    mem[a + 1] := v / 0x100 % 0x100;
    mem[a + 2] := v / 0x1_0000 % 0x100;
    mem[a + 3] := v / 0x100_0000;
  }

  function Load32(mem: array<byte>, a: int): (v: word)
    requires 0 <= a && a + 4 <= mem.Length
    reads mem
    ensures v == Get32(mem[..], a)
  {
    FromBytes(mem[a], mem[a + 1], mem[a + 2], mem[a + 3])
  }

  method Store8(mem: array<byte>, a: int, v: byte)
    requires 0 <= a < mem.Length
    modifies mem
    ensures mem[a] == v && SameOutside(old(mem[..]), mem[..], a, a + 1)
    ensures SameWords(old(mem[..]), mem[..], a, a + 1)
  {
    mem[a] := v;
  }

  /** memory_set */
  method MemorySet(mem: array<byte>, dest: int, val: byte, count: int)
    requires 0 <= dest && 0 <= count && dest + count <= mem.Length
    modifies mem
    ensures forall x :: dest <= x < dest + count ==> mem[x] == val
    ensures SameOutside(old(mem[..]), mem[..], dest, dest + count)
  {
    var i := 0;
    while i < count
      invariant 0 <= i <= count
      invariant forall x :: dest <= x < dest + i ==> mem[x] == val
      invariant SameOutside(old(mem[..]), mem[..], dest, dest + count)
    {
      mem[dest + i] := val;
      i := i + 1;
    }
  }

  /** memory_copy: for every overlap of the two regions the destination ends as the source was,
      and no byte outside the destination changes. */
  method MemoryCopy(mem: array<byte>, dest: int, src: int, count: int)
    requires mem.Length <= WORD
    requires 0 <= count && 0 <= dest && dest + count <= mem.Length && 0 <= src && src + count <= mem.Length
    modifies mem
    ensures Copied(old(mem[..]), mem[..], src, dest, count)
    ensures SameOutside(old(mem[..]), mem[..], dest, dest + count)
  {
    if dest < src || dest >= (src + count) % WORD {
      CopyForward(mem, dest, src, count);
    } else {
      CopyBackward(mem, dest, src, count);
    }
  }

  /** The first loop of memory_copy: right when the destination does not start inside the source. */
  method CopyForward(mem: array<byte>, dest: int, src: int, count: int)
    requires 0 <= count && 0 <= dest && dest + count <= mem.Length && 0 <= src && src + count <= mem.Length
    requires dest <= src || src + count <= dest
    modifies mem
    ensures Copied(old(mem[..]), mem[..], src, dest, count)
    ensures SameOutside(old(mem[..]), mem[..], dest, dest + count)
  {
    ghost var m := mem[..];
    var i := 0;
    while i < count
      invariant 0 <= i <= count
      invariant forall x :: dest <= x < dest + i ==> mem[x] == m[x - dest + src]
      invariant forall x :: 0 <= x < mem.Length && !(dest <= x < dest + i) ==> mem[x] == m[x]
    {
      mem[dest + i] := mem[src + i];
      i := i + 1;
    }
  }

  /** The second loop: right when the destination does not end inside the source. */
  method CopyBackward(mem: array<byte>, dest: int, src: int, count: int)
    requires 0 <= count && 0 <= dest && dest + count <= mem.Length && 0 <= src && src + count <= mem.Length
    requires src <= dest
    modifies mem
    ensures Copied(old(mem[..]), mem[..], src, dest, count)
    ensures SameOutside(old(mem[..]), mem[..], dest, dest + count)
  {
    ghost var m := mem[..];
    var i := count;
    while i > 0
      invariant 0 <= i <= count
      invariant forall x :: dest + i <= x < dest + count ==> mem[x] == m[x - dest + src]
      invariant forall x :: 0 <= x < mem.Length && !(dest + i <= x < dest + count) ==> mem[x] == m[x]
    {
      mem[dest + i - 1] := mem[src + i - 1];
      i := i - 1;
    }
  }
}

/** Addresses as the source's ulong and signed 64-bit integers, and the chunk rules of MemState.cpp:177-206. */
module Addresses {
  /** One more than the largest ulong. */
  const ULONG := 0x1_0000_0000_0000_0000

  /** SYMEM_BLOCK_SIZE */
  const BLOCK := 32

  /** addr & SYMEM_BLOCK_MASK */
  function Align(addr: int): int { addr - addr % BLOCK }

  /** A signed address as a ulong. */
  function Ulong(a: int): int { if a < 0 then a + ULONG else a }

  /** A ulong as a signed address. */
  function SignedAddr(u: int): int { if u < ULONG / 2 then u else u - ULONG }

  /** The span leaves its 32-byte chunk. */
  predicate CrossesChunk(addr: int, size: nat) { Ulong(addr) - Align(Ulong(addr)) + size > BLOCK }

  /** The span stays in its 16-byte half chunk. */
  predicate InHalfChunk(addr: int, size: nat) { Ulong(addr) % 16 + size <= 16 }

  predicate WordSize(size: nat) { size == 1 || size == 2 || size == 4 || size == 8 }

  /** The number of the n-byte block that holds the byte at a signed address. */
  function BlockOf(a: int, n: nat): int
    requires n > 0
  {
    a % ULONG / n
  }

  lemma UlongIs(a: int)
    requires -ULONG <= a < ULONG
    ensures Ulong(a) == a % ULONG
  {}

  /** A signed address and its ulong name the same byte. */
  lemma SignedAddrIs(u: int)
    requires 0 <= u < ULONG
    ensures SignedAddr(u) % ULONG == u && -ULONG <= 2 * SignedAddr(u) < ULONG
  {}

  /** A span leaves its chunk when its last byte lies in another 32-byte block than its first, and its half chunk when
      it lies in another block of 16. */
  lemma CrossesIs(addr: int, size: nat)
    requires size >= 1 && -ULONG <= 2 * addr && 2 * (addr + size) <= ULONG
    ensures CrossesChunk(addr, size) <==> BlockOf(addr, 32) != BlockOf(addr + size - 1, 32)
    ensures InHalfChunk(addr, size) <==> BlockOf(addr, 16) == BlockOf(addr + size - 1, 16)
  {
    UlongIs(addr);
    UlongIs(addr + size - 1);
    var u, v := Ulong(addr), Ulong(addr + size - 1);
    assert addr >= 0 || addr + size <= 0 ==> v == u + size - 1;
    assert addr < 0 < addr + size ==> v < ULONG / 2 <= u && u + size > ULONG;
    BlocksDiffer(u, size, 32);
    BlocksDiffer(u, size, 16);
  }

  lemma BlocksDiffer(u: int, size: nat, n: nat)
    requires 0 <= u && size >= 1 && (n == 16 || n == 32)
    ensures u % n + size > n <==> u / n != (u + size - 1) / n
  {}
}

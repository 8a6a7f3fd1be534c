/** libraries/chain/block_header.cpp, id and num_from_id: a block id is the header's digest with the
    block number in its first four bytes. */
module BlockIds {
  import opened Bits
  import opened Merkle

  type Id = Digest

  /** fc::endian_reverse_u32. */
  function ReverseBytes(x: nat): (r: nat)
    requires x < TWO_32
    ensures r < TWO_32
  {
    var x1 := x / 256;
    var x2 := x1 / 256;
    x % 256 * 0x100_0000 + x1 % 256 * 0x1_0000 + x2 % 256 * 256 + x2 / 256
  }

  lemma ReverseReverse(x: nat)
    requires x < TWO_32
    ensures ReverseBytes(ReverseBytes(x)) == x
  {
    hide ReverseBytes;
    var x1 := x / 256;
    var x2 := x1 / 256;
    var a, b, c, d := x % 256, x1 % 256, x2 % 256, x2 / 256;
    ReverseOfBytes(a, b, c, d);
    ReverseOfBytes(d, c, b, a);
  }

  lemma ReverseOfBytes(a: nat, b: nat, c: nat, d: nat)
    requires a < 256 && b < 256 && c < 256 && d < 256
    ensures var x := a + 256 * (b + 256 * (c + 256 * d));
            x < TWO_32 && ReverseBytes(x) == d + 256 * (c + 256 * (b + 256 * a))
  {
    var x2 := c + 256 * d;
    var x1 := b + 256 * x2;
    var x := a + 256 * x1;
    assert x / 256 == x1 && x1 / 256 == x2 && x2 / 256 == d;
  }

  /** num_from_id; the first word is cut to 32 bits. */
  function NumFromId(id: Id): (num: nat)
    ensures num < TWO_32
  {
    ReverseBytes(id.h0 % TWO_32)
  }

  /** block_header::id of a header with this digest and block number. */
  function MakeId(digest: Digest, blockNum: nat): (id: Id)
    requires blockNum < TWO_32
  {
    HighWord(digest.h0);
    digest.(h0 := BitAnd(digest.h0, 0xFFFF_FFFF_0000_0000) + ReverseBytes(blockNum))
  }

  lemma HighWord(x: Word)
    ensures BitAnd(x, 0xFFFF_FFFF_0000_0000) == x - x % TWO_32 <= TWO_64 - TWO_32
  {
    hide BitAnd, Shr, Low, Pow2;
    Pow2Of32();
    Pow2Of64();
    AndField(x, 32, 32);
    LowOfSmall(x, 64);
    ShrIsDiv(x, 32);
  }

  /** The number can be read back from the id, and the rest of the digest is kept. */
  lemma NumOfMadeId(digest: Digest, blockNum: nat)
    requires blockNum < TWO_32
    ensures var id := MakeId(digest, blockNum);
            && NumFromId(id) == blockNum
            && id.h0 / TWO_32 == digest.h0 / TWO_32 && id.h1 == digest.h1 && id.h2 == digest.h2 && id.h3 == digest.h3
  {
    hide BitAnd, ReverseBytes;
    HighWord(digest.h0);
    ReverseReverse(blockNum);
    var hi, lo := digest.h0 / TWO_32, ReverseBytes(blockNum);
    assert digest.h0 - digest.h0 % TWO_32 == hi * TWO_32;
    assert (hi * TWO_32 + lo) % TWO_32 == lo && (hi * TWO_32 + lo) / TWO_32 == hi;
  }

  /** The first four bytes of an id, in memory order, are the block number from its most significant
      byte on. */
  lemma NumberInFirstBytes(id: Id, a: nat, b: nat, c: nat, d: nat, rest: nat)
    requires a < 256 && b < 256 && c < 256 && d < 256 && id.h0 == a + 256 * (b + 256 * (c + 256 * (d + 256 * rest)))
    ensures NumFromId(id) == d + 256 * (c + 256 * (b + 256 * a))
  {
    hide ReverseBytes;
    ReverseOfBytes(a, b, c, d);
    LowHalf(a + 256 * (b + 256 * (c + 256 * d)), rest);
  }

  lemma LowHalf(lo: nat, hi: nat)
    requires lo < TWO_32
    ensures (lo + TWO_32 * hi) % TWO_32 == lo
  {
  }

  /** sha256_less. */
  predicate IdLess(a: Id, b: Id) {
    if a.h0 != b.h0 then a.h0 < b.h0
    else if a.h1 != b.h1 then a.h1 < b.h1
    else if a.h2 != b.h2 then a.h2 < b.h2
    else a.h3 < b.h3
  }

  /** An id as a 256-bit number, its first word the most significant. */
  ghost function IdValue(a: Id): (n: nat) {
    ((a.h0 * TWO_64 + a.h1) * TWO_64 + a.h2) * TWO_64 + a.h3
  }

  /** The order of ids is the order of these numbers. */
  lemma IdLessIff(a: Id, b: Id)
    ensures IdLess(a, b) <==> IdValue(a) < IdValue(b)
    ensures IdValue(a) == IdValue(b) <==> a == b
  {
  }
}

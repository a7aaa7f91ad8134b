/** Bytes, aligned 8-byte words and 4096-byte blocks of byte-addressable memory. */
module Words {
  const BLOCK_SIZE: nat := 4096
  const WORDS: nat := 512
  const ATOMIC_SIZE: nat := 8
  const TWO64: nat := 0x1_0000_0000_0000_0000

  type Byte = x: int | 0 <= x < 256

  /** The unit of an atomic store: eight bytes, least significant first. */
  type Word = w: seq<Byte> | |w| == 8 witness [0, 0, 0, 0, 0, 0, 0, 0]

  type Block = b: seq<Word> | |b| == 512 witness seq<Word>(512, _ => ZERO_WORD)

  const ZERO_WORD: Word := [0, 0, 0, 0, 0, 0, 0, 0]

  function ZeroBlock(): (b: Block)
    ensures forall i | 0 <= i < 512 :: b[i] == ZERO_WORD
  {
    seq<Word>(512, _ => ZERO_WORD)
  }

  function Pow256(n: nat): (p: nat)
    ensures p >= 1
  {
    if n == 0 then 1 else 256 * Pow256(n - 1)
  }

  function Decode(w: seq<Byte>): nat {
    if w == [] then 0 else w[0] + 256 * Decode(w[1..])
  }

  function Encode(n: nat, len: nat): (w: seq<Byte>)
    ensures |w| == len
  {
    if len == 0 then [] else [n % 256] + Encode(n / 256, len - 1)
  }

  function ToWord(n: nat): Word {
    Encode(n, |ZERO_WORD|)
  }

  /** A stored 64-bit number is read back unchanged. */
  lemma {:induction false} DecodeEncode(n: nat, len: nat)
    requires n < Pow256(len)
    ensures Decode(Encode(n, len)) == n
  {
    if len > 0 {
      DecodeEncode(n / 256, len - 1);
      assert Encode(n, len)[1..] == Encode(n / 256, len - 1);
    }
  }

  lemma Pow256Of8()
    ensures Pow256(8) == 0x1_0000_0000_0000_0000
  {
    assert Pow256(4) == 256 * 256 * 256 * 256;
    assert Pow256(6) == 256 * 256 * Pow256(4);
  }

  lemma WordRoundTrip(n: nat)
    requires n < 0x1_0000_0000_0000_0000
    ensures Decode(ToWord(n)) == n
  {
    Pow256Of8();
    DecodeEncode(n, 8);
  }

  /** Entry i of a block read as an array of 64-bit block numbers. */
  function Addr(b: Block, i: nat): nat
    requires i < 512
  {
    Decode(b[i])
  }

  function ByteAt(b: Block, x: nat): Byte
    requires x < 4096
  {
    b[x / 8][x % 8]
  }

  /** The bytes of a block. */
  function Bytes(b: Block): (s: seq<Byte>)
    ensures |s| == 4096
    ensures forall x {:trigger s[x]} | 0 <= x < 4096 :: s[x] == ByteAt(b, x)
  {
    seq<Byte>(4096, x requires 0 <= x < 4096 => ByteAt(b, x))
  }

  /** The block b with bytes [off, off + |src|) replaced by src. */
  function Patch(b: Block, off: nat, src: seq<Byte>): (r: Block)
    requires off + |src| <= 4096
    ensures forall x {:trigger ByteAt(r, x)} | 0 <= x < 4096 ::
      ByteAt(r, x) == if off <= x < off + |src| then src[x - off] else ByteAt(b, x)
  {
    seq<Word>(512, i requires 0 <= i < 512 =>
      seq<Byte>(8, k requires 0 <= k < 8 =>
        if off <= 8 * i + k < off + |src| then src[8 * i + k - off] else b[i][k]))
  }

  /** Blocks with the same bytes are the same block. */
  lemma SameBytes(b: Block, c: Block)
    requires forall x {:trigger ByteAt(b, x)} | 0 <= x < 4096 :: ByteAt(b, x) == ByteAt(c, x)
    ensures b == c
  {
    forall i | 0 <= i < 512
      ensures b[i] == c[i]
    {
      forall k | 0 <= k < 8
        ensures b[i][k] == c[i][k]
      {
        assert ByteAt(b, 8 * i + k) == b[i][k];
        assert ByteAt(c, 8 * i + k) == c[i][k];
      }
    }
  }
}

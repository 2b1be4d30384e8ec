/** Little-endian 32-bit words over bytes, and masked writes on them. */
module Words {

  type Byte = bv8
  type Word = bv32

  /** A flat view of guest memory: the bytes at the mapped addresses. */
  type Bytes = map<int, Byte>

  function Byte0(w: Word): Byte { (w & 0xFF) as Byte }
  function Byte1(w: Word): Byte { ((w >> 8) & 0xFF) as Byte }
  function Byte2(w: Word): Byte { ((w >> 16) & 0xFF) as Byte }
  function Byte3(w: Word): Byte { ((w >> 24) & 0xFF) as Byte }

  function Pack(b0: Byte, b1: Byte, b2: Byte, b3: Byte): Word {
    (b0 as Word) | ((b1 as Word) << 8) | ((b2 as Word) << 16) | ((b3 as Word) << 24)
  }

  /** The four bytes of a word, lowest first. */
  type Bytes4 = s: seq<Byte> | |s| == 4 witness [0, 0, 0, 0]

  function WordBytes(w: Word): Bytes4 {
    [Byte0(w), Byte1(w), Byte2(w), Byte3(w)]
  }

  function PackSeq(s: Bytes4): Word {
    Pack(s[0], s[1], s[2], s[3])
  }

  lemma PackOfBytes(w: Word)
    ensures Pack(Byte0(w), Byte1(w), Byte2(w), Byte3(w)) == w
  {
  }

  lemma BytesOfPack(b0: Byte, b1: Byte, b2: Byte, b3: Byte)
    ensures WordBytes(Pack(b0, b1, b2, b3)) == [b0, b1, b2, b3]
  {
  }

  /** The byte at `i`, as an integer. */
  function Value(s: seq<Byte>, i: nat): int
    requires i < |s|
  {
    s[i] as int
  }

  /** The little-endian number of the four bytes from `i` on, in integers. */
  function Number(s: seq<Byte>, i: nat): int
    requires i + 4 <= |s|
  {
    Value(s, i) + 0x100 * Value(s, i + 1) + 0x1_0000 * Value(s, i + 2) + 0x100_0000 * Value(s, i + 3)
  }

  lemma PackValue(b0: Byte, b1: Byte, b2: Byte, b3: Byte)
    ensures ((b0 as Word) | ((b1 as Word) << 8) | ((b2 as Word) << 16) | ((b3 as Word) << 24)) as int
            == b0 as int + 0x100 * (b1 as int) + 0x1_0000 * (b2 as int) + 0x100_0000 * (b3 as int)
  {
  }

  lemma PackIs(b0: Byte, b1: Byte, b2: Byte, b3: Byte)
    ensures Pack(b0, b1, b2, b3) ==
              (b0 as Word) | ((b1 as Word) << 8) | ((b2 as Word) << 16) | ((b3 as Word) << 24)
  {
  }

  /** Words are read lowest byte first. */
  lemma LittleEndian(s: Bytes4)
    ensures PackSeq(s) as int == Number(s, 0)
  {
    hide Pack;
    PackValue(s[0], s[1], s[2], s[3]);
    PackIs(s[0], s[1], s[2], s[3]);
  }

  /** And written so. */
  lemma WrittenLittleEndian(w: Word)
    ensures w as int == Number(WordBytes(w), 0)
  {
    hide Pack, Byte0, Byte1, Byte2, Byte3;
    PackOfBytes(w);
    assert PackSeq(WordBytes(w)) == w;
    LittleEndian(WordBytes(w));
    hide PackSeq, WordBytes, Number;
  }

  predicate HasWord(mem: Bytes, a: int) {
    a in mem && a + 1 in mem && a + 2 in mem && a + 3 in mem
  }

  function BytesAt(mem: Bytes, a: int): Bytes4
    requires HasWord(mem, a)
  {
    [mem[a], mem[a + 1], mem[a + 2], mem[a + 3]]
  }

  function WordAt(mem: Bytes, a: int): Word
    requires HasWord(mem, a)
  {
    PackSeq(BytesAt(mem, a))
  }

  /** `mem` with `s` copied over the bytes from `a` on. */
  function Overlay(mem: Bytes, a: int, s: seq<Byte>): (r: Bytes)
    ensures r.Keys == mem.Keys
  {
    map k | k in mem :: if a <= k < a + |s| then s[k - a] else mem[k]
  }

  /** What `memset` leaves in a new region. */
  function FreshByte(a: int): Byte {
    0
  }

  function Zeros(first: int, last: int): Bytes {
    map k | first <= k <= last :: FreshByte(k)
  }

  lemma IsGrown(mem: Bytes, first: int, last: int, grown: Bytes)
    requires forall a :: a in grown <==> first <= a <= last || a in mem
    requires forall a :: a in grown ==> grown[a] == if first <= a <= last then 0 else mem[a]
    ensures grown == mem + Zeros(first, last)
  {
  }

  // ---------------------------------------------------------------- masked writes

  /** The bits of `prior` outside the mask, and those of `value` inside it. */
  function Blend8(prior: Byte, mask: Byte, value: Byte): Byte {
    (prior & !mask) | (value & mask)
  }

  function Blend(prior: Word, mask: Word, value: Word): Word {
    (prior & !mask) | (value & mask)
  }

  /** A byte that a masked write would leave as it is. */
  predicate Settled(x: Byte, mask: Byte, value: Byte) {
    x == Blend8(x, mask, value)
  }

  // One bit-vector fact a lemma keeps each query small.
  lemma BlendByte0(prior: Word, mask: Word, value: Word)
    ensures Byte0(Blend(prior, mask, value)) == Blend8(Byte0(prior), Byte0(mask), Byte0(value))
  {
  }

  lemma BlendByte1(prior: Word, mask: Word, value: Word)
    ensures Byte1(Blend(prior, mask, value)) == Blend8(Byte1(prior), Byte1(mask), Byte1(value))
  {
  }

  lemma BlendByte2(prior: Word, mask: Word, value: Word)
    ensures Byte2(Blend(prior, mask, value)) == Blend8(Byte2(prior), Byte2(mask), Byte2(value))
  {
  }

  lemma BlendByte3(prior: Word, mask: Word, value: Word)
    ensures Byte3(Blend(prior, mask, value)) == Blend8(Byte3(prior), Byte3(mask), Byte3(value))
  {
  }

  lemma BlendBytes(prior: Word, mask: Word, value: Word, k: nat)
    requires k < 4
    ensures WordBytes(Blend(prior, mask, value))[k] ==
              Blend8(WordBytes(prior)[k], WordBytes(mask)[k], WordBytes(value)[k])
  {
    hide Byte0, Byte1, Byte2, Byte3, Blend, Blend8;
    if k == 0 {
      BlendByte0(prior, mask, value);
    } else if k == 1 {
      BlendByte1(prior, mask, value);
    } else if k == 2 {
      BlendByte2(prior, mask, value);
    } else {
      BlendByte3(prior, mask, value);
    }
  }

  /** A byte with exactly one bit set. */
  predicate IsBit(q: Byte) {
    q != 0 && q & (q - 1) == 0
  }

  predicate Bit(x: Byte, q: Byte) {
    x & q != 0
  }

  lemma BitOfBlend(prior: Byte, mask: Byte, value: Byte, q: Byte)
    requires IsBit(q)
    ensures Bit(Blend8(prior, mask, value), q) == if Bit(mask, q) then Bit(value, q) else Bit(prior, q)
  {
  }

  lemma SameBits(x: Byte, y: Byte)
    requires forall q :: IsBit(q) ==> Bit(x, q) == Bit(y, q)
    ensures x == y
  {
    assert IsBit(1) && IsBit(2) && IsBit(4) && IsBit(8) && IsBit(16) && IsBit(32) && IsBit(64) && IsBit(128);
    assert Bit(x, 1) == Bit(y, 1) && Bit(x, 2) == Bit(y, 2) && Bit(x, 4) == Bit(y, 4) && Bit(x, 8) == Bit(y, 8);
    assert Bit(x, 16) == Bit(y, 16) && Bit(x, 32) == Bit(y, 32);
    assert Bit(x, 64) == Bit(y, 64) && Bit(x, 128) == Bit(y, 128);
  }

  /** A masked write after a masked write is one masked write; doing it twice is
      doing it once. */
  lemma BlendCompose(prior: Byte, m1: Byte, v1: Byte, m2: Byte, v2: Byte)
    ensures Blend8(Blend8(prior, m1, v1), m2, v2) == Blend8(prior, m1 | m2, Blend8(v1, m2, v2))
    ensures Blend8(Blend8(prior, m1, v1), m1, v1) == Blend8(prior, m1, v1)
  {
  }

  /** A masked write of the word at `a`, on whichever of its bytes are mapped. */
  function MaskedWrite(mem: Bytes, a: int, mask: Bytes4, value: Bytes4): (r: Bytes)
    ensures r.Keys == mem.Keys
  {
    map k | k in mem :: if a <= k < a + 4 then Blend8(mem[k], mask[k - a], value[k - a]) else mem[k]
  }

  lemma BlendWordBytes(w: Word, mask: Word, value: Word, b: Bytes4, k: nat)
    requires k < 4 && WordBytes(w) == b
    ensures WordBytes(Blend(w, mask, value))[k] == Blend8(b[k], WordBytes(mask)[k], WordBytes(value)[k])
  {
    BlendBytes(w, mask, value, k);
  }

  /** Storing the blended word is the masked write. */
  lemma OverlayIsMaskedWrite(mem: Bytes, a: int, mask: Word, value: Word)
    requires HasWord(mem, a)
    ensures Overlay(mem, a, WordBytes(Blend(WordAt(mem, a), mask, value))) ==
              MaskedWrite(mem, a, WordBytes(mask), WordBytes(value))
  {
    var w := WordAt(mem, a);
    var b := [mem[a], mem[a + 1], mem[a + 2], mem[a + 3]];
    assert WordBytes(w) == b by { BytesOfPack(b[0], b[1], b[2], b[3]); }
    forall k | k in mem && a <= k < a + 4
      ensures WordBytes(Blend(w, mask, value))[k - a] == Blend8(mem[k], WordBytes(mask)[k - a], WordBytes(value)[k - a])
    {
      BlendWordBytes(w, mask, value, b, k - a);
      assert b[k - a] == mem[k];
    }
  }

  /** A word whose bytes agree with a masked write agrees with it as a word. */
  lemma WordAgrees(b: Bytes4, mask: Word, value: Word, m: Bytes4, v: Bytes4)
    requires m == WordBytes(mask) && v == WordBytes(value)
    requires Settled(b[0], m[0], v[0]) && Settled(b[1], m[1], v[1])
    requires Settled(b[2], m[2], v[2]) && Settled(b[3], m[3], v[3])
    ensures PackSeq(b) == Blend(PackSeq(b), mask, value)
  {
    var w := PackSeq(b);
    assert WordBytes(w) == b by { BytesOfPack(b[0], b[1], b[2], b[3]); }
    BlendWordBytes(w, mask, value, b, 0);
    BlendWordBytes(w, mask, value, b, 1);
    BlendWordBytes(w, mask, value, b, 2);
    BlendWordBytes(w, mask, value, b, 3);
    assert WordBytes(Blend(w, mask, value)) == b;
    PackOfBytes(Blend(w, mask, value));
  }

  lemma BytesOfWord(mem: Bytes, a: int)
    requires HasWord(mem, a)
    ensures WordBytes(WordAt(mem, a)) == BytesAt(mem, a)
  {
    BytesOfPack(mem[a], mem[a + 1], mem[a + 2], mem[a + 3]);
  }

  lemma WordSettled(mem: Bytes, a: int, mask: Word, value: Word, m: Bytes4, v: Bytes4)
    requires HasWord(mem, a) && m == WordBytes(mask) && v == WordBytes(value)
    requires Settled(mem[a], m[0], v[0]) && Settled(mem[a + 1], m[1], v[1])
    requires Settled(mem[a + 2], m[2], v[2]) && Settled(mem[a + 3], m[3], v[3])
    ensures WordAt(mem, a) == Blend(WordAt(mem, a), mask, value)
  {
    hide Settled, WordBytes, Blend, PackSeq;
    WordAgrees(BytesAt(mem, a), mask, value, m, v);
  }
}

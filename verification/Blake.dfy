/** BLAKE-512 of _blake1.py: compression in place, padding and the bit counter. */
module Blake {
  import opened Base
  import opened Encoding
  import opened Words
  import opened BlakeRounds

  type Block = b: Bytes | |b| == 128 witness seq(128, i => 0)
  type Hash = h: seq<Word> | |h| == 8 witness seq(8, i => 0)
  type Salt = s: seq<Word> | |s| == 4 witness seq(4, i => 0)

  const IV512: Hash := [
    0x6A09E667F3BCC908, 0xBB67AE8584CAA73B, 0x3C6EF372FE94F82B, 0xA54FF53A5F1D36F1,
    0x510E527FADE682D1, 0x9B05688C2B3E6C1F, 0x1F83D9ABFB41BD6B, 0x5BE0CD19137E2179]

  // ---- Compression -------------------------------------------------------------------

  /** The block as sixteen big-endian words. */
  function MessageWords(block: Block): State {
    seq(16, i requires 0 <= i < 16 => U64(FromBE(block[8 * i..8 * i + 8])))
  }

  /** The initial state: chaining value, salted constants, counter low and high. */
  function Initial(h: Hash, salt: Salt, t: nat): State {
    h + [Xor(salt[0], C512[0]), Xor(salt[1], C512[1]), Xor(salt[2], C512[2]), Xor(salt[3], C512[3]),
         Xor(U64(t), C512[4]), Xor(U64(t), C512[5]), Xor(U64(t / W), C512[6]), Xor(U64(t / W), C512[7])]
  }

  /** Each message word is spelled by its eight bytes of the block, highest first. */
  lemma WordsAreBigEndian(block: Block, i: nat)
    requires i < 16
    ensures ToBE(MessageWords(block)[i], 8) == block[8 * i..8 * i + 8]
  {
    var octets := block[8 * i..8 * i + 8];
    FromBEBound(octets);
    EightBytes(|octets|);
    DivModUnique(FromBE(octets), W, 0, FromBE(octets));
    BigEndianBytes(octets);
  }

  /** Without the constants: the chaining value, the salt, the low 64 bits of the
      counter twice, then the next 64 bits twice. */
  lemma InitialWords(h: Hash, salt: Salt, t: nat)
    ensures var v := Initial(h, salt, t);
      && v[..8] == h
      && (forall i :: 0 <= i < 4 ==> Xor(v[8 + i], C512[i]) == salt[i])
      && Xor(v[12], C512[4]) == Xor(v[13], C512[5]) == t % W
      && Xor(v[14], C512[6]) == Xor(v[15], C512[7]) == t / W % W
  {
    XorCancels(U64(t), C512[4]);
    XorCancels(U64(t), C512[5]);
    XorCancels(U64(t / W), C512[6]);
    XorCancels(U64(t / W), C512[7]);
    forall i | 0 <= i < 4 ensures Xor(Initial(h, salt, t)[8 + i], C512[i]) == salt[i] {
      XorCancels(salt[i], C512[i]);
    }
  }

  function Finish(h: Hash, v: State, salt: Salt, i: nat): Word
    requires i < 8
  {
    Xor(Xor(Xor(h[i], v[i]), v[i + 8]), salt[i % 4])
  }

  function Finalize(h: Hash, v: State, salt: Salt): Hash {
    seq(8, i requires 0 <= i < 8 => Finish(h, v, salt, i))
  }

  function Compression(h: Hash, block: Block, salt: Salt, t: nat): Hash {
    Finalize(h, Rounds(Mix, Initial(h, salt, t), MessageWords(block), 16), salt)
  }

  /** The compression undone up to its last step: sixteen rounds back from a state that
      explains the output is the initial state. */
  lemma CompressionBack(h: Hash, block: Block, salt: Salt, t: nat) returns (v: State)
    ensures RoundsBack(Unmix, v, MessageWords(block), 16) == Initial(h, salt, t)
    ensures Compression(h, block, salt, t) == Finalize(h, v, salt)
  {
    var m, v0 := MessageWords(block), Initial(h, salt, t);
    v := Rounds(Mix, v0, m, 16);
    SixteenRoundsBijective(v0, m);
  }

  /** Each output word is its old one with both halves of the state and the salt folded in. */
  lemma FinishBack(h: Hash, v: State, salt: Salt, i: nat)
    requires i < 8
    ensures Xor(Xor(Xor(Finalize(h, v, salt)[i], salt[i % 4]), v[i + 8]), v[i]) == h[i]
  {
    XorCancels(Xor(Xor(h[i], v[i]), v[i + 8]), salt[i % 4]);
    XorCancels(Xor(h[i], v[i]), v[i + 8]);
    XorCancels(h[i], v[i]);
  }

  /** One round: columns, then diagonals. */
  method RoundInPlace(v: array<Word>, m: State, s: seq<Index>)
    requires v.Length == 16 && |s| == 16
    modifies v
    ensures v[..] == Round(Mix, old(v[..]), m, s, 8)
  {
    ghost var u: State := v[..];
    MixInPlace(v, m, s, 0);
    assert v[..] == Round(Mix, u, m, s, 1);
    MixInPlace(v, m, s, 1);
    assert v[..] == Round(Mix, u, m, s, 2);
    MixInPlace(v, m, s, 2);
    assert v[..] == Round(Mix, u, m, s, 3);
    MixInPlace(v, m, s, 3);
    assert v[..] == Round(Mix, u, m, s, 4);
    MixInPlace(v, m, s, 4);
    assert v[..] == Round(Mix, u, m, s, 5);
    MixInPlace(v, m, s, 5);
    assert v[..] == Round(Mix, u, m, s, 6);
    MixInPlace(v, m, s, 6);
    assert v[..] == Round(Mix, u, m, s, 7);
    MixInPlace(v, m, s, 7);
  }

  /** `_compress`: updates h in place. */
  method Compress(h: array<Word>, block: Block, salt: Salt, t: nat)
    requires h.Length == 8
    modifies h
    ensures h[..] == Compression(old(h[..]), block, salt, t)
  {
    var m := MessageWords(block);
    ghost var h0: Hash := h[..];
    ghost var v0 := Initial(h0, salt, t);
    var init := Initial(h[..], salt, t);
    var v := new Word[16](i requires 0 <= i < 16 => init[i]);
    assert v[..] == v0;
    AllRounds(v, m);
    FoldBack(h, v, salt);
  }

  /** The sixteen rounds. */
  method AllRounds(v: array<Word>, m: State)
    requires v.Length == 16
    modifies v
    ensures v[..] == Rounds(Mix, old(v[..]), m, 16)
  {
    ghost var v0: State := v[..];
    for r := 0 to 16
      invariant v[..] == Rounds(Mix, v0, m, r)
    {
      RoundInPlace(v, m, Row(r));
    }
  }

  /** The last loop: the two halves of v and the salt folded into h. */
  method FoldBack(h: array<Word>, v: array<Word>, salt: Salt)
    requires h.Length == 8 && v.Length == 16 && h != v
    modifies h
    ensures h[..] == Finalize(old(h[..]), old(v[..]), salt)
  {
    ghost var h0: Hash, v0: State := h[..], v[..];
    for i := 0 to 8
      invariant v[..] == v0
      invariant forall j :: 0 <= j < i ==> h[j] == Finish(h0, v0, salt, j)
      invariant forall j :: i <= j < 8 ==> h[j] == h0[j]
    {
      h[i] := Xor(Xor(Xor(h[i], v[i]), v[i + 8]), salt[i % 4]);
    }
    assert h[..] == Finalize(h0, v0, salt);
  }

  // ---- The specified padding, bit by bit ----------------------------------------------

  type Bits = seq<bool>

  /** The bit of weight 2^j. */
  predicate Bit(n: nat, j: nat) {
    if j == 0 then n % 2 == 1 else Bit(n / 2, j - 1)
  }

  /** The low k bits of n, most significant first. */
  function BitsOf(n: nat, k: nat): (r: Bits)
    ensures |r| == k
  {
    seq(k, i requires 0 <= i < k => Bit(n, k - 1 - i))
  }

  lemma LastBit(n: nat, k: nat)
    requires k > 0
    ensures BitsOf(n, k) == BitsOf(n / 2, k - 1) + [n % 2 == 1]
  {
    var s, t := BitsOf(n, k), BitsOf(n / 2, k - 1) + [n % 2 == 1];
    forall i | 0 <= i < k ensures s[i] == t[i] {
      if i < k - 1 {
        assert Bit(n, k - 1 - i) == Bit(n / 2, k - 2 - i);
      }
    }
  }

  function ByteBits(bytes: Bytes): (r: Bits)
    ensures |r| == 8 * |bytes|
  {
    seq(8 * |bytes|, i requires 0 <= i < 8 * |bytes| => Bit(bytes[i / 8], 7 - i % 8))
  }

  function Zeros(n: nat): Bits {
    seq(n, i => false)
  }

  /** The number of zero bits that brings the length, after a 1, to 895 mod 1024. */
  function ZeroCount(bits: nat): nat {
    (895 - (bits + 1)) % 1024
  }

  /** BLAKE-512 padding: a 1, the fewest zeros that reach 895 mod 1024, a 1, and
      the message length as 128 bits. */
  function SpecPadded(message: Bits): Bits {
    message + [true] + Zeros(ZeroCount(|message|)) + [true] + BitsOf(|message|, 128)
  }

  // ---- The padding the code writes ------------------------------------------------------

  function ZeroBytes(n: nat): Bytes {
    seq(n, i => 0)
  }

  /** The zero bytes appended until the length is 111 mod 128. */
  function FillCount(n: nat): nat {
    (111 - (n + 1)) % 128
  }

  /** 0x80, the fill, 0x01, and the bit length as two 64-bit words, the first 0. */
  function Tail(n: nat): Bytes {
    [0x80] + ZeroBytes(FillCount(n)) + [0x01] + (ToBE(0, 8) + ToBE(8 * n, 8))
  }

  function Padded(data: Bytes): (r: Bytes)
    ensures |r| % 128 == 0 && |data| < |r|
  {
    TailLength(|data|);
    data + Tail(|data|)
  }

  lemma FillLength(n: nat)
    ensures (n + 1 + FillCount(n)) % 128 == 111 && (n + (18 + FillCount(n))) % 128 == 0
  {
    var k := (111 - (n + 1)) / 128;
    assert n + 1 + FillCount(n) == 111 + 128 * (-k);
    DivModUnique(n + 1 + FillCount(n), 128, -k, 111);
    DivModUnique(n + (18 + FillCount(n)), 128, 1 - k, 0);
  }

  lemma TailLength(n: nat)
    ensures |Tail(n)| == 18 + FillCount(n) && (n + |Tail(n)|) % 128 == 0
  {
    FillLength(n);
  }

  lemma OctetIndex(i: nat, n: nat)
    requires 8 * n <= i
    ensures (i - 8 * n) / 8 == i / 8 - n && (i - 8 * n) % 8 == i % 8
  {
    DivModUnique(i - 8 * n, 8, i / 8 - n, i % 8);
  }

  lemma BitLeft(a: Bytes, b: Bytes, i: nat)
    requires i < 8 * |a|
    ensures ByteBits(a + b)[i] == (ByteBits(a) + ByteBits(b))[i]
  {
    assert (a + b)[i / 8] == a[i / 8];
  }

  lemma BitRight(a: Bytes, b: Bytes, i: nat)
    requires 8 * |a| <= i < 8 * |a + b|
    ensures ByteBits(a + b)[i] == (ByteBits(a) + ByteBits(b))[i]
  {
    OctetIndex(i, |a|);
    assert (a + b)[i / 8] == b[i / 8 - |a|];
    assert (ByteBits(a) + ByteBits(b))[i] == ByteBits(b)[i - 8 * |a|];
  }

  lemma ByteBitsConcat(a: Bytes, b: Bytes)
    ensures ByteBits(a + b) == ByteBits(a) + ByteBits(b)
  {
    var s, t := ByteBits(a + b), ByteBits(a) + ByteBits(b);
    forall i | 0 <= i < |s| ensures s[i] == t[i] {
      if i < 8 * |a| {
        BitLeft(a, b, i);
      } else {
        BitRight(a, b, i);
      }
    }
  }

  lemma OneByteBits(b: byte)
    ensures ByteBits([b]) == BitsOf(b, 8)
  {
    forall i | 0 <= i < 8 ensures ByteBits([b])[i] == BitsOf(b, 8)[i] {
      assert i / 8 == 0 && i % 8 == i;
    }
  }

  /** The last byte gives the last eight bits. */
  lemma ByteBitsLast(bytes: Bytes, b: byte)
    ensures ByteBits(bytes + [b]) == ByteBits(bytes) + BitsOf(b, 8)
  {
    ByteBitsConcat(bytes, [b]);
    OneByteBits(b);
  }

  lemma {:induction false} ZeroByteBits(n: nat)
    ensures ByteBits(ZeroBytes(n)) == Zeros(8 * n)
  {
    if n > 0 {
      assert ZeroBytes(n) == ZeroBytes(n - 1) + [0];
      ZeroByteBits(n - 1);
      ByteBitsLast(ZeroBytes(n - 1), 0);
      ZeroBits(8);
    }
  }

  lemma {:induction false} ZeroBits(k: nat)
    ensures BitsOf(0, k) == Zeros(k)
  {
    if k > 0 {
      ZeroBits(k - 1);
      LastBit(0, k);
    }
  }

  lemma {:induction false} BitsConcat(q: nat, r: nat, j: nat, k: nat)
    requires r < Pow2(k)
    ensures q * Pow2(k) >= 0 && BitsOf(q * Pow2(k) + r, j + k) == BitsOf(q, j) + BitsOf(r, k)
    decreases k
  {
    if k > 0 {
      var h := Pow2(k - 1);
      MulLe(0, h, q);
      var n := q * Pow2(k) + r;
      assert q * Pow2(k) == 2 * (q * h);
      assert n / 2 == q * h + r / 2 && n % 2 == r % 2;
      BitsConcat(q, r / 2, j, k - 1);
      LastBit(n, j + k);
      LastBit(r, k);
    } else {
      assert q * 1 == q;
    }
  }

  lemma LastByteBits(n: nat, k: nat)
    requires k > 0
    ensures ByteBits(ToBE(n, k)) == ByteBits(ToBE(n / 256, k - 1)) + BitsOf(n % 256, 8)
  {
    LastByte(n, k);
    ByteBitsLast(ToBE(n / 256, k - 1), n % 256);
  }

  lemma LastEightBits(n: nat, j: nat)
    ensures BitsOf(n, j + 8) == BitsOf(n / 256, j) + BitsOf(n % 256, 8)
  {
    assert Pow2(8) == 256;
    BitsConcat(n / 256, n % 256, j, 8);
  }

  /** Big-endian bytes spell the same bits as the number itself. */
  lemma {:induction false} BigEndianBits(n: nat, k: nat)
    ensures ByteBits(ToBE(n, k)) == BitsOf(n, 8 * k)
    decreases k
  {
    if k > 0 {
      BigEndianBits(n / 256, k - 1);
      LastByteBits(n, k);
      LastEightBits(n, 8 * (k - 1));
    }
  }

  lemma OneBit()
    ensures BitsOf(1, 1) == [true] && Pow2(1) == 2
  {
    LastBit(1, 1);
    assert BitsOf(0, 0) == [] && Pow2(0) == 1;
  }

  lemma MarkerBits()
    ensures BitsOf(0x80, 8) == [true] + Zeros(7) && BitsOf(0x01, 8) == Zeros(7) + [true]
  {
    assert Pow2(7) == 0x80;
    OneBit();
    ZeroBits(7);
    BitsConcat(1, 0, 1, 7);
    BitsConcat(0, 1, 7, 1);
  }

  /** The 16-byte length field is the 128-bit length. */
  lemma LengthBits(bits: nat)
    requires bits < W
    ensures ByteBits(ToBE(0, 8) + ToBE(bits, 8)) == BitsOf(bits, 128)
  {
    ByteBitsConcat(ToBE(0, 8), ToBE(bits, 8));
    BigEndianBits(0, 8);
    BigEndianBits(bits, 8);
    Pow2Of64();
    BitsConcat(0, bits, 64, 64);
  }

  lemma ByteBitsFour(a: Bytes, b: Bytes, c: Bytes, d: Bytes)
    ensures ByteBits(a + b + c + d) == ByteBits(a) + ByteBits(b) + ByteBits(c) + ByteBits(d)
  {
    ByteBitsConcat(a + b + c, d);
    ByteBitsConcat(a + b, c);
    ByteBitsConcat(a, b);
  }

  /** The bits the code appends: the two markers with 14 + 8*fill zeros between. */
  lemma TailBits(n: nat)
    requires 8 * n < W
    ensures ByteBits(Tail(n)) == [true] + Zeros(14 + 8 * FillCount(n)) + [true] + BitsOf(8 * n, 128)
  {
    MarkerBits();
    LengthBits(8 * n);
    OneByteBits(0x80);
    OneByteBits(0x01);
    MarkedBits([0x80], FillCount(n), [0x01], ToBE(0, 8) + ToBE(8 * n, 8), BitsOf(8 * n, 128));
  }

  lemma MarkedBits(m: Bytes, f: nat, e: Bytes, len: Bytes, l: Bits)
    requires ByteBits(m) == [true] + Zeros(7) && ByteBits(e) == Zeros(7) + [true] && ByteBits(len) == l
    ensures ByteBits(m + ZeroBytes(f) + e + len) == [true] + Zeros(14 + 8 * f) + [true] + l
  {
    ByteBitsFour(m, ZeroBytes(f), e, len);
    ZeroByteBits(f);
    JoinZeros(ByteBits(m), Zeros(8 * f), ByteBits(e), l, 8 * f);
  }

  lemma JoinZeros(a: Bits, z: Bits, c: Bits, l: Bits, k: nat)
    requires a == [true] + Zeros(7) && z == Zeros(k) && c == Zeros(7) + [true]
    ensures a + z + c + l == [true] + Zeros(14 + k) + [true] + l
  {
  }

  /** The two zero counts agree at every length but 111 mod 128, where the
      specification merges both markers into one byte. */
  lemma CountsAgree(n: nat)
    ensures ZeroCount(8 * n) == 14 + 8 * FillCount(n) <==> n % 128 != 111
    ensures n % 128 == 111 ==> 14 + 8 * FillCount(n) == ZeroCount(8 * n) + 1024
  {
    var q, r := n / 128, n % 128;
    if r <= 110 {
      DivModUnique(110 - n, 128, -q, 110 - r);
      DivModUnique(894 - 8 * n, 1024, -q, 894 - 8 * r);
    } else if r == 111 {
      DivModUnique(110 - n, 128, -q - 1, 127);
      DivModUnique(894 - 8 * n, 1024, -q, 6);
    } else {
      DivModUnique(110 - n, 128, -q - 1, 238 - r);
      DivModUnique(894 - 8 * n, 1024, -q - 1, 1918 - 8 * r);
    }
  }

  /** The padded bits in two parts: the message and what the code appends. */
  lemma PaddedBits(data: Bytes) returns (padded: Bits, message: Bits, tail: Bits)
    requires 8 * |data| < W
    ensures padded == ByteBits(Padded(data)) && message == ByteBits(data) && padded == message + tail
    ensures tail == [true] + Zeros(14 + 8 * FillCount(|data|)) + [true] + BitsOf(8 * |data|, 128)
    ensures |padded| == 8 * |Padded(data)| && |message| == 8 * |data|
  {
    padded, message, tail := ByteBits(Padded(data)), ByteBits(data), ByteBits(Tail(|data|));
    ByteBitsConcat(data, Tail(|data|));
    TailBits(|data|);
  }

  lemma PaddingExact(padded: Bits, message: Bits, tail: Bits, n: nat)
    requires padded == message + tail && |message| == 8 * n
    requires tail == [true] + Zeros(14 + 8 * FillCount(n)) + [true] + BitsOf(8 * n, 128)
    ensures padded == SpecPadded(message) <==> n % 128 != 111
    ensures n % 128 == 111 ==> |padded| == |SpecPadded(message)| + 1024
  {
    CountsAgree(n);
    PaddingsDiffer(message, 14 + 8 * FillCount(n), ZeroCount(8 * n), BitsOf(8 * n, 128));
  }

  lemma PaddingsDiffer(d: Bits, y: nat, z: nat, l: Bits)
    ensures |d + ([true] + Zeros(y) + [true] + l)| - |d + [true] + Zeros(z) + [true] + l| == y - z
    ensures y == z ==> d + ([true] + Zeros(y) + [true] + l) == d + [true] + Zeros(z) + [true] + l
  {
  }

  /** The padded bytes are the specified padding exactly when the length is not 111 mod 128. */
  lemma PaddingMeetsSpec(data: Bytes)
    requires 8 * |data| < W
    ensures ByteBits(Padded(data)) == SpecPadded(ByteBits(data)) <==> |data| % 128 != 111
    ensures |data| % 128 == 111 ==> |Padded(data)| * 8 == |SpecPadded(ByteBits(data))| + 1024
  {
    var padded, message, tail := PaddedBits(data);
    PaddingExact(padded, message, tail, |data|);
  }

  // ---- The specified hash of a bit string ------------------------------------------------

  type Compressor = (Hash, Block, nat) -> Hash

  function BitsToNat(bits: Bits): nat {
    if bits == [] then 0 else 2 * BitsToNat(bits[..|bits| - 1]) + if bits[|bits| - 1] then 1 else 0
  }

  lemma {:induction false} BitsRoundTrip(n: nat, k: nat)
    requires n < Pow2(k)
    ensures BitsToNat(BitsOf(n, k)) == n
  {
    if k > 0 {
      BitsRoundTrip(n / 2, k - 1);
      LastBit(n, k);
    }
  }

  /** Eight bits to a byte. */
  function Pack(bits: Bits): (r: Bytes)
    requires |bits| % 8 == 0
    ensures 8 * |r| == |bits|
  {
    seq(|bits| / 8, i requires 0 <= i < |bits| / 8 => BitsToNat(bits[8 * i..8 * i + 8]) % 256)
  }

  lemma OctetValue(b: byte)
    ensures BitsToNat(BitsOf(b, 8)) % 256 == b
  {
    assert Pow2(8) == 256;
    BitsRoundTrip(b, 8);
  }

  lemma ByteBitsSlice(bytes: Bytes, lo: nat, hi: nat)
    requires lo <= hi <= |bytes|
    ensures ByteBits(bytes)[8 * lo..8 * hi] == ByteBits(bytes[lo..hi])
  {
    var a, b, c := bytes[..lo], bytes[lo..hi], bytes[hi..];
    assert bytes == (a + b) + c;
    ByteBitsConcat(a + b, c);
    ByteBitsConcat(a, b);
  }

  lemma Octet(bytes: Bytes, i: nat)
    requires i < |bytes|
    ensures BitsToNat(ByteBits(bytes)[8 * i..8 * i + 8]) % 256 == bytes[i]
  {
    ByteBitsSlice(bytes, i, i + 1);
    assert bytes[i..i + 1] == [bytes[i]];
    OneByteBits(bytes[i]);
    OctetValue(bytes[i]);
  }

  lemma PackByteBits(bytes: Bytes)
    ensures Pack(ByteBits(bytes)) == bytes
  {
    var bits := ByteBits(bytes);
    forall i | 0 <= i < |bytes| ensures Pack(bits)[i] == bytes[i] {
      Octet(bytes, i);
    }
  }

  /** The counter of block i of an n-bit message: message bits hashed so far, or
      0 when the block holds none. */
  function Counter(n: nat, i: nat): nat {
    if 1024 * i >= n then 0 else if n < 1024 * (i + 1) then n else 1024 * (i + 1)
  }

  /** The chaining value after i blocks of a padded bit string, for a message of n bits. */
  function BitChain(f: Compressor, padded: Bits, n: nat, i: nat): Hash
    requires 1024 * i <= |padded|
  {
    if i == 0 then IV512
    else f(BitChain(f, padded, n, i - 1), Pack(padded[1024 * (i - 1)..1024 * i]), Counter(n, i - 1))
  }

  /** The specified hash of a message given as bits. */
  function SpecHash(f: Compressor, message: Bits): Hash {
    var padded := SpecPadded(message);
    BitChain(f, padded, |message|, |padded| / 1024)
  }

  /** The chaining value after i blocks of padded bytes, for a message of n bits. */
  function ByteChain(f: Compressor, padded: Bytes, n: nat, i: nat): Hash
    requires 128 * i <= |padded|
  {
    if i == 0 then IV512
    else f(ByteChain(f, padded, n, i - 1), padded[128 * (i - 1)..128 * i], Counter(n, i - 1))
  }

  function CodeHash(f: Compressor, data: Bytes): Hash {
    ByteChain(f, Padded(data), 8 * |data|, |Padded(data)| / 128)
  }

  lemma BlockBits(bytes: Bytes, i: nat)
    requires 128 * (i + 1) <= |bytes|
    ensures Pack(ByteBits(bytes)[1024 * i..1024 * (i + 1)]) == bytes[128 * i..128 * (i + 1)]
  {
    ByteBitsSlice(bytes, 128 * i, 128 * (i + 1));
    PackByteBits(bytes[128 * i..128 * (i + 1)]);
  }

  lemma {:induction false} ChainsAgree(f: Compressor, bytes: Bytes, bits: Bits, n: nat, i: nat)
    requires bits == ByteBits(bytes) && 128 * i <= |bytes|
    ensures ByteChain(f, bytes, n, i) == BitChain(f, bits, n, i)
    decreases i
  {
    if i > 0 {
      ChainsAgree(f, bytes, bits, n, i - 1);
      BlockBits(bytes, i - 1);
    }
  }

  /** At every length but 111 mod 128 the code's hash is the specified one. */
  lemma HashMeetsSpec(f: Compressor, data: Bytes)
    requires 8 * |data| < W && |data| % 128 != 111
    ensures CodeHash(f, data) == SpecHash(f, ByteBits(data))
  {
    PaddingMeetsSpec(data);
    var p, bits := Padded(data), SpecPadded(ByteBits(data));
    BlockCounts(|p|, |bits|);
    ChainsAgree(f, p, bits, 8 * |data|, |p| / 128);
  }

  lemma BlockCounts(bytes: nat, bits: nat)
    requires bits == 8 * bytes && bytes % 128 == 0
    ensures bits / 1024 == bytes / 128
  {
    DivModUnique(bits, 1024, bytes / 128, 0);
  }

  // ---- The hash --------------------------------------------------------------------------

  const NO_SALT: Salt := [0, 0, 0, 0]

  /** Compression with the zero salt, as a value. */
  function Unsalted(): Compressor {
    (h, block, t) => Compression(h, block, NO_SALT, t)
  }

  /** Eight big-endian words. */
  function Serialize(h: seq<Word>): (r: Bytes)
    ensures |r| == 8 * |h|
  {
    if h == [] then [] else Serialize(h[..|h| - 1]) + ToBE(h[|h| - 1], 8)
  }

  /** Bytes 8i to 8i + 8 of the output are word i, highest byte first. */
  lemma {:induction false} OutputBytes(h: seq<Word>, i: nat)
    requires i < |h|
    ensures Serialize(h)[8 * i..8 * i + 8] == ToBE(h[i], 8) && FromBE(Serialize(h)[8 * i..8 * i + 8]) == h[i]
  {
    var n := |h| - 1;
    if i < n {
      OutputBytes(h[..n], i);
      assert Serialize(h)[8 * i..8 * i + 8] == Serialize(h[..n])[8 * i..8 * i + 8];
    } else {
      EightBytes(8);
      BigEndianRoundTrip(h[i], 8);
    }
  }

  /** Hashes the last one or two blocks; only the first can hold message bits. */
  method FinalBlocks(h: array<Word>, pad: Bytes, remBits: nat, tCounter: nat, ghost f: Compressor)
    requires h.Length == 8 && |pad| in {128, 256} && IsUnsalted(f)
    modifies h
    ensures h[..] == LastBlocks(f, old(h[..]), pad, if remBits == 0 then 0 else tCounter + remBits)
  {
    var t := if remBits == 0 then 0 else tCounter + remBits;
    HashBlock(h, pad[..128], t, f);
    if |pad| > 128 {
      HashBlock(h, pad[128..], 0, f);
    }
  }

  /** The chaining value after the padded remainder: one block, or two. */
  function LastBlocks(f: Compressor, h: Hash, pad: Bytes, t: nat): Hash
    requires |pad| in {128, 256}
  {
    var h1 := f(h, pad[..128], t);
    if |pad| == 128 then h1 else f(h1, pad[128..], 0)
  }

  /** The remaining bytes with 0x80, the fill and 0x01. */
  method PadRemainder(rem: Bytes, ghost n: nat, ghost offset: nat, ghost k: nat) returns (pad: Bytes)
    requires offset == 128 * k && n == offset + |rem| && |rem| < 128
    ensures pad == rem + [0x80] + ZeroBytes(FillCount(n)) + [0x01]
  {
    pad := rem + [0x80];
    ghost var z := 0;
    while |pad| % 128 != 111
      invariant pad == rem + [0x80] + ZeroBytes(z) && z <= FillCount(n)
      decreases FillCount(n) - z
    {
      FillExact(n, offset, k, z);
      pad := pad + [0x00];
      z := z + 1;
    }
    FillExact(n, offset, k, z);
    pad := pad + [0x01];
  }

  /** A full block of the message advances the chain. */
  lemma FullStep(f: Compressor, data: Bytes, padded: Bytes, k: nat, h: Hash)
    requires data <= padded && 128 * (k + 1) <= |data|
    requires h == ByteChain(f, padded, 8 * |data|, k)
    ensures ByteChain(f, padded, 8 * |data|, k + 1) == f(h, data[128 * k..128 * k + 128], 1024 * (k + 1))
  {
    assert padded[128 * k..128 * (k + 1)] == data[128 * k..128 * k + 128];
  }

  ghost predicate IsUnsalted(f: Compressor) {
    forall h, block, t {:trigger Compression(h, block, NO_SALT, t)} ::
      f(h, block, t) == Compression(h, block, NO_SALT, t)
  }

  /** `_compress` with the zero salt. */
  method HashBlock(h: array<Word>, block: Block, t: nat, ghost f: Compressor)
    requires h.Length == 8 && IsUnsalted(f)
    modifies h
    ensures h[..] == f(old(h[..]), block, t)
  {
    Compress(h, block, NO_SALT, t);
  }

  /** Hashes the full 128-byte blocks, counting 1024 bits for each. */
  method FullBlocks(h: array<Word>, data: Bytes, ghost f: Compressor, ghost padded: Bytes)
    returns (offset: nat, tCounter: nat, ghost k: nat)
    requires h.Length == 8 && h[..] == IV512 && IsUnsalted(f) && data <= padded
    modifies h
    ensures offset == 128 * k <= |data| < offset + 128 && tCounter == 1024 * k
    ensures h[..] == ByteChain(f, padded, 8 * |data|, k)
  {
    offset, tCounter, k := 0, 0, 0;
    while |data| - offset >= 128
      invariant offset == 128 * k <= |data| && tCounter == 1024 * k
      invariant h[..] == ByteChain(f, padded, 8 * |data|, k)
    {
      tCounter := tCounter + 1024;
      FullStep(f, data, padded, k, h[..]);
      HashBlock(h, data[offset..offset + 128], tCounter, f);
      offset := offset + 128;
      k := k + 1;
    }
  }

  /** `blake512`; None where `struct.pack` rejects a length of 2^64 bits or more. */
  method Blake512(data: Bytes) returns (digest: Option<Bytes>)
    ensures digest.None? <==> 8 * |data| >= W
    ensures digest.Some? ==> |digest.value| == 64
    ensures digest.Some? ==> digest.value == Serialize(CodeHash(Unsalted(), data))
    ensures digest.Some? && |data| % 128 != 111 ==> digest.value == Serialize(SpecHash(Unsalted(), ByteBits(data)))
  {
    ghost var f, padded := Unsalted(), Padded(data);
    var h := new Word[8](i requires 0 <= i < 8 => IV512[i]);
    assert h[..] == IV512;
    var n := |data|;
    var offset, tCounter, k := FullBlocks(h, data, f, padded);
    var rem := data[offset..];
    var remBits := 8 * |rem|;
    var mid := PadRemainder(rem, n, offset, k);
    var bits := remBits + offset * 8;
    assert bits == 8 * n == tCounter + remBits;
    if bits >= W {
      return None;
    }
    var pad := mid + (ToBE(0, 8) + ToBE(bits, 8));
    PaddedSplits(data, offset, k, n, rem, mid, bits, pad);
    ghost var t := if remBits == 0 then 0 else tCounter + remBits;
    TailChain(f, padded, pad, bits, k, t);
    ghost var h0: Hash := h[..];
    FinalBlocks(h, pad, remBits, tCounter, f);
    assert h[..] == LastBlocks(f, h0, pad, t);
    digest := Some(Serialize(h[..]));
    if n % 128 != 111 {
      HashMeetsSpec(f, data);
    }
  }

  /** The code's padded message is the full blocks already hashed and its padded remainder. */
  lemma PaddedSplits(data: Bytes, offset: nat, k: nat, n: nat, rem: Bytes, mid: Bytes, bits: nat, pad: Bytes)
    requires n == |data| && offset == 128 * k <= n < offset + 128 && rem == data[offset..] && bits == 8 * n
    requires mid == rem + [0x80] + ZeroBytes(FillCount(n)) + [0x01]
    requires pad == mid + (ToBE(0, 8) + ToBE(bits, 8))
    ensures |pad| in {128, 256} && (128 < |pad| ==> n > offset)
    ensures |Padded(data)| == offset + |pad| && Padded(data)[offset..] == pad
  {
    FillSize(n, offset, k);
    Rejoin(data, offset, [0x80], ZeroBytes(FillCount(n)), [0x01], ToBE(0, 8) + ToBE(bits, 8));
    assert Padded(data) == data[..offset] + pad;
  }

  lemma FillSize(n: nat, offset: nat, k: nat)
    requires offset == 128 * k <= n < offset + 128
    ensures n - offset <= 110 ==> FillCount(n) == 110 - (n - offset)
    ensures n - offset > 110 ==> FillCount(n) == 238 - (n - offset)
  {
    if n - offset <= 110 {
      DivModUnique(110 - n, 128, 0 - k, 110 - (n - offset));
    } else {
      DivModUnique(110 - n, 128, 0 - k - 1, 238 - (n - offset));
    }
  }

  lemma Rejoin(data: Bytes, offset: nat, a: Bytes, z: Bytes, c: Bytes, l: Bytes)
    requires offset <= |data|
    ensures data + (a + z + c + l) == data[..offset] + (data[offset..] + a + z + c + l)
  {
    assert data == data[..offset] + data[offset..];
  }

  /** The last one or two steps of the chain. */
  lemma TailChain(f: Compressor, padded: Bytes, pad: Bytes, n: nat, k: nat, t: nat)
    requires |padded| == 128 * k + |pad| && padded[128 * k..] == pad && |pad| in {128, 256}
    requires 1024 * k <= n < 1024 * (k + 1) && (n == 1024 * k ==> |pad| == 128)
    requires t == if n == 1024 * k then 0 else n
    ensures ByteChain(f, padded, n, |padded| / 128) == LastBlocks(f, ByteChain(f, padded, n, k), pad, t)
  {
    DivModUnique(|padded|, 128, k + |pad| / 128, 0);
    assert padded[128 * k..128 * (k + 1)] == pad[..128];
    assert ByteChain(f, padded, n, k + 1) == f(ByteChain(f, padded, n, k), pad[..128], Counter(n, k));
    if |pad| == 256 {
      assert padded[128 * (k + 1)..128 * (k + 2)] == pad[128..];
      assert ByteChain(f, padded, n, k + 2) == f(ByteChain(f, padded, n, k + 1), pad[128..], Counter(n, k + 1));
    }
  }

  /** The fill stops after exactly FillCount(n) bytes. */
  lemma FillExact(n: nat, offset: nat, k: nat, z: nat)
    requires offset == 128 * k <= n < offset + 128 && z <= FillCount(n)
    ensures (n - offset + 1 + z) % 128 == 111 <==> z == FillCount(n)
  {
    var f, r := FillCount(n), n - offset;
    DivModUnique(n, 128, k, r);
    if r <= 110 {
      DivModUnique(110 - n, 128, 0 - k, 110 - r);
      DivModUnique(r + 1 + z, 128, 0, r + 1 + z);
    } else {
      DivModUnique(110 - n, 128, 0 - k - 1, 238 - r);
      if r + 1 + z < 128 {
        DivModUnique(r + 1 + z, 128, 0, r + 1 + z);
      } else {
        DivModUnique(r + 1 + z, 128, 1, r + 1 + z - 128);
      }
    }
  }
}

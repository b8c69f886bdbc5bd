/** Limb transport through the circuit's shared memory (witness.py). */
module Witness {
  import opened Base

  const RADIX: nat := 0x1_0000_0000

  type Limb = w: nat | w < RADIX

  function PowRadix(n: nat): (r: nat)
    ensures r >= 1
  {
    if n == 0 then 1 else RADIX * PowRadix(n - 1)
  }

  /** The base-2^32 digits of n, most significant first, none for 0. */
  function Digits(n: nat): seq<Limb> {
    if n == 0 then [] else Digits(n / RADIX) + [n % RADIX]
  }

  function LeftPad(words: seq<Limb>, size: nat): (r: seq<Limb>)
    ensures |r| == if |words| < size then size else |words|
  {
    if |words| < size then seq(size - |words|, i => 0) + words else words
  }

  /** `_to_array32`: insertion at the front, digits first, then zeros. */
  method ToArray32(value: nat, size: nat) returns (arr: seq<Limb>)
    ensures arr == LeftPad(Digits(value), size)
  {
    arr := [];
    var rem: nat := value;
    while rem > 0
      invariant Digits(value) == Digits(rem) + arr
    {
      Peel(rem, arr);
      arr := [rem % RADIX] + arr;
      rem := rem / RADIX;
    }
    assert arr == Digits(value);
    while |arr| < size
      invariant LeftPad(arr, size) == LeftPad(Digits(value), size)
      decreases size - |arr|
    {
      PadOne(arr, size);
      arr := [0] + arr;
    }
  }

  lemma PadOne(arr: seq<Limb>, size: nat)
    requires |arr| < size
    ensures LeftPad([0] + arr, size) == LeftPad(arr, size)
  {
    var z := size - |arr|;
    var zeros: seq<Limb> := seq(z - 1, i => 0);
    if z > 1 {
      assert LeftPad([0] + arr, size) == zeros + ([0] + arr) == (zeros + [0]) + arr;
    }
    var padding: seq<Limb> := seq(z, i => 0);
    assert zeros + [0] == padding;
    assert z == 1 ==> [0] + arr == padding + arr;
  }

  lemma Peel(n: nat, arr: seq<Limb>)
    requires n > 0
    ensures Digits(n) + arr == Digits(n / RADIX) + ([n % RADIX] + arr)
  {
  }

  /** `_from_array32`: each word masked to 32 bits. */
  function FromWords(words: seq<int>): nat {
    if words == [] then 0
    else FromWords(words[..|words| - 1]) * RADIX + words[|words| - 1] % RADIX
  }

  method FromArray32(arr: seq<int>) returns (res: nat)
    ensures res == FromWords(arr)
  {
    res := 0;
    var i := 0;
    while i < |arr|
      invariant i <= |arr| && res == FromWords(arr[..i])
    {
      assert arr[..i + 1][..i] == arr[..i];
      res := res * RADIX + arr[i] % RADIX;
      i := i + 1;
    }
    assert arr[..i] == arr;
  }

  // ---- Round trips --------------------------------------------------------------------

  lemma {:induction false} DigitsValue(n: nat)
    ensures FromWords(Digits(n)) == n
  {
    if n > 0 {
      DigitsValue(n / RADIX);
      var d := Digits(n);
      assert d[..|d| - 1] == Digits(n / RADIX);
    }
  }

  lemma {:induction false} LeadingZeros(z: nat, words: seq<Limb>)
    ensures FromWords(seq(z, i => 0) + words) == FromWords(words)
  {
    var zeros: seq<int> := seq(z, i => 0);
    var all: seq<int> := zeros + words;
    if words != [] {
      assert all[..|all| - 1] == zeros + words[..|words| - 1];
      LeadingZeros(z, words[..|words| - 1]);
    } else if z > 0 {
      assert all[..|all| - 1] == seq(z - 1, i => 0) + words;
      LeadingZeros(z - 1, words);
    }
  }

  /** Packing and unpacking any value, at any size, gives it back. */
  lemma PackUnpack(n: nat, size: nat)
    ensures FromWords(LeftPad(Digits(n), size)) == n
  {
    DigitsValue(n);
    if |Digits(n)| < size {
      LeadingZeros(size - |Digits(n)|, Digits(n));
    }
  }

  lemma {:induction false} WordsBound(words: seq<int>)
    ensures FromWords(words) < PowRadix(|words|)
  {
    if words != [] {
      WordsBound(words[..|words| - 1]);
    }
  }

  lemma {:induction false} DigitCount(n: nat, size: nat)
    ensures |Digits(n)| <= size <==> n < PowRadix(size)
    decreases size, n
  {
    if n > 0 && size > 0 {
      DigitCount(n / RADIX, size - 1);
      var p := PowRadix(size - 1);
      assert n / RADIX < p <==> n < RADIX * p;
    }
  }

  lemma HighLow(high: nat, low: Limb)
    ensures (high * RADIX + low) / RADIX == high && (high * RADIX + low) % RADIX == low && low % RADIX == low
  {
  }

  lemma LastWord(words: seq<Limb>)
    requires words != []
    ensures var k := |words| - 1;
      FromWords(words) / RADIX == FromWords(words[..k]) && FromWords(words) % RADIX == words[k]
  {
    var k := |words| - 1;
    HighLow(FromWords(words[..k]), words[k]);
  }

  lemma PadLonger(digits: seq<Limb>, w: Limb, size: nat)
    requires |digits| <= size
    ensures LeftPad(digits + [w], size + 1) == LeftPad(digits, size) + [w]
  {
    if |digits| < size {
      assert LeftPad(digits + [w], size + 1) == seq(size - |digits|, i => 0) + (digits + [w]);
    }
  }

  lemma PadNothing(size: nat)
    ensures LeftPad([], size + 1) == LeftPad([], size) + [0]
  {
  }

  /** Unpacking and packing n32 words gives the words back. */
  lemma {:induction false} UnpackPack(words: seq<Limb>)
    ensures LeftPad(Digits(FromWords(words)), |words|) == words
  {
    if words != [] {
      var k := |words| - 1;
      var init, w, n := words[..k], words[k], FromWords(words);
      UnpackPack(init);
      LastWord(words);
      WordsBound(init);
      DigitCount(FromWords(init), k);
      if n > 0 {
        assert Digits(n) == Digits(FromWords(init)) + [w];
        PadLonger(Digits(FromWords(init)), w, k);
      } else {
        PadNothing(k);
      }
      assert init + [w] == words;
    }
  }

  // ---- The shared memory ------------------------------------------------------------------

  /** The i32 a limb is written as. */
  function Signed(w: Limb): int {
    if w >= 0x8000_0000 then w - RADIX else w
  }

  predicate IsI32(x: int) {
    -0x8000_0000 <= x < 0x8000_0000
  }

  function Reverse(words: seq<int>): (r: seq<int>)
    ensures |r| == |words| && forall j :: 0 <= j < |words| ==> r[j] == words[|words| - 1 - j]
  {
    seq(|words|, j requires 0 <= j < |words| => words[|words| - 1 - j])
  }

  /** What the calculator reads back from the first n32 words of memory. */
  function ReadBack(mem: seq<int>): nat {
    FromWords(Reverse(mem))
  }

  lemma DivTwice(n: nat, p: nat)
    requires p > 0
    ensures n / (RADIX * p) == n / RADIX / p
  {
    var a, r := n / RADIX, n % RADIX;
    assert n == (RADIX * p) * (a / p) + (RADIX * (a % p) + r);
    DivModUnique(n, RADIX * p, a / p, RADIX * (a % p) + r);
  }

  /** Masked words are the base-2^32 digits of their value, the last of weight 1. */
  lemma {:induction false} WordIsDigit(words: seq<int>, j: nat)
    requires j < |words|
    ensures FromWords(words) / PowRadix(j) % RADIX == words[|words| - 1 - j] % RADIX
  {
    var n, k := FromWords(words), |words| - 1;
    HighLow(FromWords(words[..k]), words[k] % RADIX);
    if j > 0 {
      WordIsDigit(words[..k], j - 1);
      DivTwice(n, PowRadix(j - 1));
    } else {
      assert n / 1 == n;
    }
  }

  /** Memory word j holds the digit of weight 2^(32 j). */
  lemma MemoryIsLittleEndian(mem: seq<int>, j: nat)
    requires j < |mem|
    ensures mem[j] % RADIX == ReadBack(mem) / PowRadix(j) % RADIX
  {
    WordIsDigit(Reverse(mem), j);
  }

  /** Words with the same residues have the same value. */
  lemma {:induction false} MaskedSame(a: seq<int>, b: seq<int>)
    requires |a| == |b| && forall i :: 0 <= i < |a| ==> a[i] % RADIX == b[i] % RADIX
    ensures FromWords(a) == FromWords(b)
  {
    if a != [] {
      MaskedSame(a[..|a| - 1], b[..|b| - 1]);
    }
  }

  lemma SignedMasked(w: Limb)
    ensures Signed(w) % RADIX == w && IsI32(Signed(w))
  {
  }

  /** The write loop of `calculate_witness`: word j is limb n32-1-j, as a signed i32. */
  method WriteLimbs(mem: array<int>, value: nat)
    modifies mem
    ensures forall j :: 0 <= j < mem.Length ==> IsI32(mem[j])
    ensures ReadBack(mem[..]) == value <==> value < PowRadix(mem.Length)
    ensures value < PowRadix(mem.Length) ==>
      forall j :: 0 <= j < mem.Length ==> mem[j] % RADIX == value / PowRadix(j) % RADIX
  {
    var n32 := mem.Length;
    var words := ToArray32(value, n32);
    var j := 0;
    while j < n32
      invariant j <= n32
      invariant forall i :: 0 <= i < j ==> mem[i] == Signed(words[n32 - 1 - i])
    {
      mem[j] := Signed(words[n32 - 1 - j]);
      j := j + 1;
    }
    forall i | 0 <= i < n32 ensures IsI32(mem[i]) && mem[i] % RADIX == words[n32 - 1 - i] {
      SignedMasked(words[n32 - 1 - i]);
    }
    MaskedSame(Reverse(mem[..]), words[..n32]);
    DigitCount(value, n32);
    PackUnpack(value, n32);
    WordsBound(words[..n32]);
    if value < PowRadix(n32) {
      assert words[..n32] == words;
      forall i | 0 <= i < n32 ensures mem[i] % RADIX == value / PowRadix(i) % RADIX {
        MemoryIsLittleEndian(mem[..], i);
      }
    }
  }

  /** One input: reduced mod the prime, written, and read back unchanged. */
  method WriteInput(mem: array<int>, raw: int, prime: nat)
    requires 0 < prime <= PowRadix(mem.Length)
    modifies mem
    ensures ReadBack(mem[..]) == raw % prime
    ensures forall j :: 0 <= j < mem.Length ==> mem[j] % RADIX == raw % prime / PowRadix(j) % RADIX
  {
    WriteLimbs(mem, raw % prime);
  }

  /** The read loop: words in memory order, reversed, recombined. */
  method ReadLimbs(mem: array<int>) returns (value: nat)
    ensures value == ReadBack(mem[..])
  {
    var words: seq<int> := [];
    var j := 0;
    while j < mem.Length
      invariant j <= mem.Length && words == mem[..j]
    {
      words := words + [mem[j]];
      j := j + 1;
    }
    assert words == mem[..];
    value := FromArray32(Reverse(words));
  }
}

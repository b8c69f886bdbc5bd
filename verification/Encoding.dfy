/** Python's integer/byte and hex conversions. */
module Encoding {
  import opened Base

  function Pow256(n: nat): (r: nat)
    ensures r >= 1
  {
    if n == 0 then 1 else 256 * Pow256(n - 1)
  }

  /** `int.from_bytes(buf, "little")`. */
  function FromLE(buf: Bytes): nat {
    if buf == [] then 0 else buf[0] + 256 * FromLE(buf[1..])
  }

  /** `n.to_bytes(k, "little")` for a value that fits. */
  function ToLE(n: nat, k: nat): (r: Bytes)
    ensures |r| == k
  {
    if k == 0 then [] else [n % 256] + ToLE(n / 256, k - 1)
  }

  /** `int.from_bytes(buf, "big")`. */
  function FromBE(buf: Bytes): nat {
    if buf == [] then 0 else 256 * FromBE(buf[..|buf| - 1]) + buf[|buf| - 1]
  }

  /** The byte of weight 256^j. */
  function ByteAt(n: nat, j: nat): byte {
    if j == 0 then n % 256 else ByteAt(n / 256, j - 1)
  }

  /** `n.to_bytes(k, "big")` for a value that fits. */
  function ToBE(n: nat, k: nat): (r: Bytes)
    ensures |r| == k
  {
    seq(k, i requires 0 <= i < k => ByteAt(n, k - 1 - i))
  }

  lemma LastByte(n: nat, k: nat)
    requires k > 0
    ensures ToBE(n, k) == ToBE(n / 256, k - 1) + [n % 256]
  {
    var s, t := ToBE(n, k), ToBE(n / 256, k - 1) + [n % 256];
    forall i | 0 <= i < k ensures s[i] == t[i] {
      if i < k - 1 {
        assert ByteAt(n, k - 1 - i) == ByteAt(n / 256, k - 2 - i);
      }
    }
  }

  lemma {:induction false} FromLEBound(buf: Bytes)
    ensures FromLE(buf) < Pow256(|buf|)
  {
    if buf != [] {
      FromLEBound(buf[1..]);
    }
  }

  lemma {:induction false} FromBEBound(buf: Bytes)
    ensures FromBE(buf) < Pow256(|buf|)
  {
    if buf != [] {
      FromBEBound(buf[..|buf| - 1]);
    }
  }

  /** Decoding what `to_bytes` wrote gives the integer back. */
  lemma {:induction false} BigEndianRoundTrip(n: nat, k: nat)
    requires n < Pow256(k)
    ensures FromBE(ToBE(n, k)) == n
  {
    if k > 0 {
      BigEndianRoundTrip(n / 256, k - 1);
      LastByte(n, k);
    }
  }

  /** Encoding what `from_bytes` read gives the bytes back. */
  lemma {:induction false} BigEndianBytes(buf: Bytes)
    ensures ToBE(FromBE(buf), |buf|) == buf
  {
    if buf != [] {
      var n := |buf| - 1;
      BigEndianBytes(buf[..n]);
      assert FromBE(buf) / 256 == FromBE(buf[..n]) && FromBE(buf) % 256 == buf[n];
      LastByte(FromBE(buf), |buf|);
      assert buf == buf[..n] + [buf[n]];
    }
  }

  /** The same for little-endian bytes. */
  lemma {:induction false} LittleEndianRoundTrip(n: nat, k: nat)
    requires n < Pow256(k)
    ensures FromLE(ToLE(n, k)) == n
  {
    if k > 0 {
      LittleEndianRoundTrip(n / 256, k - 1);
      var r := ToLE(n, k);
      assert r[1..] == ToLE(n / 256, k - 1);
    }
  }

  /** Byte i of a little-endian number has weight 256^i. */
  lemma {:induction false} LittleEndianByte(buf: Bytes, i: nat)
    requires i < |buf|
    ensures ByteAt(FromLE(buf), i) == buf[i]
  {
    DivModUnique(FromLE(buf), 256, FromLE(buf[1..]), buf[0]);
    if i > 0 {
      LittleEndianByte(buf[1..], i - 1);
    }
  }

  lemma {:induction false} Pow256Sum(m: nat, n: nat)
    ensures Pow256(m + n) == Pow256(m) * Pow256(n)
    decreases m
  {
    if m > 0 {
      Pow256Sum(m - 1, n);
      TimesRight(Pow256(m - 1), Pow256(n));
    }
  }

  lemma TimesRight(a: int, b: int)
    ensures (256 * a) * b == 256 * (a * b)
  {
  }

  lemma FourPowers(k: nat)
    ensures Pow256(4 * k) == Pow256(k) * Pow256(k) * (Pow256(k) * Pow256(k))
  {
    Pow256Sum(k, k);
    Pow256Sum(2 * k, 2 * k);
  }

  lemma EightBytes(k: nat)
    requires k == 8
    ensures Pow256(k) == 0x1_0000_0000_0000_0000
  {
    assert Pow256(2) == 0x1_0000;
    FourPowers(2);
  }

  lemma DivTwice(n: nat, p: nat)
    requires p > 0
    ensures n / (256 * p) == n / 256 / p
  {
    var a, r := n / 256, n % 256;
    assert n == (256 * p) * (a / p) + (256 * (a % p) + r);
    DivModUnique(n, 256 * p, a / p, 256 * (a % p) + r);
  }

  lemma {:induction false} ByteAtDigit(n: nat, j: nat)
    ensures ByteAt(n, j) == n / Pow256(j) % 256
  {
    if j > 0 {
      ByteAtDigit(n / 256, j - 1);
      DivTwice(n, Pow256(j - 1));
    } else {
      assert n / 1 == n;
    }
  }

  /** Big-endian bytes are the base-256 digits, the last of weight 1. */
  lemma BigEndianDigits(n: nat, k: nat, i: nat)
    requires i < k
    ensures ToBE(n, k)[i] == n / Pow256(k - 1 - i) % 256
  {
    ByteAtDigit(n, k - 1 - i);
  }

  // ---- Bit operations on non-negative integers ----------------------------------------

  /** `a & b`. */
  function And(a: nat, b: nat): nat {
    if a == 0 || b == 0 then 0 else 2 * And(a / 2, b / 2) + (if a % 2 == 1 && b % 2 == 1 then 1 else 0)
  }

  /** `a | b`. */
  function Or(a: nat, b: nat): nat
    decreases a + b
  {
    if a == 0 then b
    else if b == 0 then a
    else 2 * Or(a / 2, b / 2) + (if a % 2 == 1 || b % 2 == 1 then 1 else 0)
  }

  lemma AndOdd(a: nat, h: nat)
    requires a > 0 && h > 0
    ensures And(a, 2 * h - 1) == 2 * And(a / 2, h - 1) + a % 2
  {
    assert (2 * h - 1) / 2 == h - 1 && (2 * h - 1) % 2 == 1;
  }

  /** Masking with k ones keeps the value mod 2^k. */
  lemma {:induction false} AndOnes(a: nat, k: nat)
    ensures And(a, Pow2(k) - 1) == a % Pow2(k)
  {
    if k == 0 {
      assert a % 1 == 0;
    } else if a == 0 {
      DivModUnique(0, Pow2(k), 0, 0);
    } else {
      var h := Pow2(k - 1);
      Pow2Double(k - 1);
      AndOnes(a / 2, k - 1);
      AndOdd(a, h);
      HalfMod(a, h);
    }
  }

  lemma HalfMod(a: nat, h: nat)
    requires h > 0
    ensures a % (2 * h) == 2 * (a / 2 % h) + a % 2
  {
    var q := a / 2 / h;
    var r := 2 * (a / 2 % h) + a % 2;
    assert a / 2 == h * q + a / 2 % h;
    assert a == (2 * h) * q + r && 0 <= r < 2 * h;
    DivModUnique(a, 2 * h, q, r);
  }

  lemma AndDouble(a: nat, b: nat)
    ensures And(a, 2 * b) == 2 * And(a / 2, b)
  {
    if a == 0 {
      assert And(0, 2 * b) == 0 && And(0, b) == 0;
    } else if b == 0 {
      assert And(a, 0) == 0 && And(a / 2, 0) == 0;
    } else {
      assert 2 * b / 2 == b && 2 * b % 2 == 0;
    }
  }

  lemma OrDouble(a: nat, b: nat)
    requires b > 0
    ensures Or(a, 2 * b) == 2 * Or(a / 2, b) + a % 2
  {
  }

  /** Setting bit k of a value below 2^(k+1). */
  lemma {:induction false} OrBit(a: nat, k: nat)
    requires a < 2 * Pow2(k)
    ensures Or(a, Pow2(k)) == a % Pow2(k) + Pow2(k)
  {
    if k == 0 {
      assert a == 0 || (a == 1 && Or(1, 1) == 1);
    } else {
      var h := Pow2(k - 1);
      OrBit(a / 2, k - 1);
      OrDouble(a, h);
      HalfMod(a, h);
    }
  }

  /** n ones followed by k zeros, in binary. */
  function Mask(n: nat, k: nat): nat {
    if k == 0 then Pow2(n) - 1 else 2 * Mask(n, k - 1)
  }

  /** Masking a value of n + k bits clears its low k bits. */
  lemma {:induction false} AndMask(a: nat, n: nat, k: nat)
    requires a < Pow2(n + k)
    ensures And(a, Mask(n, k)) == a - a % Pow2(k)
  {
    if k == 0 {
      AndOnes(a, n);
      DivModUnique(a, Pow2(n), 0, a);
    } else {
      Pow2Double(n + k - 1);
      AndMask(a / 2, n, k - 1);
      AndDouble(a, Mask(n, k - 1));
      HalfMod(a, Pow2(k - 1));
    }
  }

  // ---- Hex ------------------------------------------------------------------------

  function HexDigit(c: char): Option<nat> {
    if '0' <= c <= '9' then Some((c - '0') as nat)
    else if 'a' <= c <= 'f' then Some((c - 'a') as nat + 10)
    else if 'A' <= c <= 'F' then Some((c - 'A') as nat + 10)
    else None
  }

  predicate IsSpace(c: char) {
    c in {' ', '\t', '\n', '\r', '\U{000B}', '\U{000C}'}
  }

  /** `bytes.fromhex`: pairs of digits, ASCII whitespace allowed between pairs. */
  function FromHex(s: string): Option<Bytes> {
    if s == [] then Some([])
    else if IsSpace(s[0]) then FromHex(s[1..])
    else if |s| < 2 || HexDigit(s[0]).None? || HexDigit(s[1]).None? then None
    else
      var rest := FromHex(s[2..]);
      if rest.None? then None
      else Some([(16 * HexDigit(s[0]).value + HexDigit(s[1]).value) % 256] + rest.value)
  }

  function Upper(c: char): char {
    if 'a' <= c <= 'f' then c - 'a' + 'A' else c
  }

  function UpperText(s: string): (r: string)
    ensures |r| == |s|
  {
    seq(|s|, i requires 0 <= i < |s| => Upper(s[i]))
  }

  lemma UpperDigit(c: char)
    ensures HexDigit(Upper(c)) == HexDigit(c) && IsSpace(Upper(c)) == IsSpace(c)
  {
  }

  /** The case of the digits does not matter. */
  lemma {:induction false} HexCaseIgnored(s: string)
    ensures FromHex(UpperText(s)) == FromHex(s)
    decreases |s|
  {
    var u := UpperText(s);
    if s != [] {
      UpperDigit(s[0]);
      if IsSpace(s[0]) {
        HexCaseIgnored(s[1..]);
        assert u[1..] == UpperText(s[1..]);
      } else if |s| >= 2 {
        UpperDigit(s[1]);
        HexCaseIgnored(s[2..]);
        assert u[2..] == UpperText(s[2..]);
      }
    }
  }

  const DIGITS := "0123456789abcdef"

  /** `bytes.hex`. */
  function ToHex(b: Bytes): (s: string)
    ensures |s| == 2 * |b|
  {
    if b == [] then [] else [DIGITS[b[0] / 16], DIGITS[b[0] % 16]] + ToHex(b[1..])
  }

  lemma HexByte(b: byte)
    ensures var hi, lo := DIGITS[b / 16], DIGITS[b % 16];
      !IsSpace(hi) && HexDigit(hi) == Some(b / 16) && HexDigit(lo) == Some(b % 16)
  {
    Digit(b / 16);
    Digit(b % 16);
  }

  lemma Digit(n: nat)
    requires n < 16
    ensures HexDigit(DIGITS[n]) == Some(n) && !IsSpace(DIGITS[n])
  {
  }

  lemma {:induction false} HexRoundTrip(b: Bytes)
    ensures FromHex(ToHex(b)) == Some(b)
  {
    if b != [] {
      HexRoundTrip(b[1..]);
      HexHead(b, ToHex(b[1..]));
    }
  }

  lemma FromHexTwo(hi: char, lo: char, t: string)
    requires !IsSpace(hi) && HexDigit(hi).Some? && HexDigit(lo).Some? && FromHex(t).Some?
    ensures FromHex([hi, lo] + t)
         == Some([(16 * HexDigit(hi).value + HexDigit(lo).value) % 256] + FromHex(t).value)
  {
    var s := [hi, lo] + t;
    assert s[0] == hi && s[1] == lo && s[2..] == t;
  }

  lemma HexHeadOf(b: byte, h: nat, l: nat, hi: char, lo: char, t: string)
    requires !IsSpace(hi) && HexDigit(hi) == Some(h) && HexDigit(lo) == Some(l) && FromHex(t).Some?
    requires b == 16 * h + l && b % 256 == b
    ensures FromHex([hi, lo] + t) == Some([b] + FromHex(t).value)
  {
    FromHexTwo(hi, lo, t);
  }

  lemma HexHead(b: Bytes, t: string)
    requires b != [] && FromHex(t) == Some(b[1..])
    ensures FromHex([DIGITS[b[0] / 16], DIGITS[b[0] % 16]] + t) == Some(b)
  {
    HexByte(b[0]);
    HexHeadOf(b[0], b[0] / 16, b[0] % 16, DIGITS[b[0] / 16], DIGITS[b[0] % 16], t);
    assert [b[0]] + b[1..] == b;
  }

  /** Hex text decodes to at most half its length, and to exactly half only when it has no whitespace. */
  lemma {:induction false} FromHexLength(s: string)
    requires FromHex(s).Some?
    ensures 2 * |FromHex(s).value| <= |s|
  {
    if s != [] {
      if IsSpace(s[0]) {
        FromHexLength(s[1..]);
      } else {
        FromHexLength(s[2..]);
      }
    }
  }

  /** Drops a leading `0x` or `0X`. */
  function StripPrefix(s: string): string {
    if |s| >= 2 && s[0] == '0' && s[1] in {'x', 'X'} then s[2..] else s
  }
}

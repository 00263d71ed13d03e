/** Byte-level reading of the archive buffer. The decoder composes its
    multi-byte fields with `<<` and `|` on Python integers, which are
    unbounded, so those operators are defined here on `nat`, and the 16- and
    32-bit little-endian fields are built on them. The decoder never splits an
    address again (it writes back the two bytes it read); `&` and `>>` are
    defined only to state that inverse, the byte split that recovers the two
    stored bytes. Python's slicing of a byte string is modelled last. */
module Bytes {

  /** One element of a Python `bytes` value. */
  type Byte = b: nat | b < 256

  function Pow2(n: nat): (r: nat)
    ensures r >= 1
  {
    if n == 0 then 1 else 2 * Pow2(n - 1)
  }

  /** Python's `x << n` on a non-negative integer: the low `n` bits of the
      result are clear, and shifting back right by `n` recovers `x`. */
  function Shl(x: nat, n: nat): (r: nat)
    ensures r % Pow2(n) == 0 && r / Pow2(n) == x
  {
    DivModUnique(x * Pow2(n), Pow2(n), x, 0);
    x * Pow2(n)
  }

  /** Python's `x >> n` on a non-negative integer (floor division by `2^n`). */
  function Shr(x: nat, n: nat): (r: nat)
  {
    DivBounds(x, Pow2(n));
    x / Pow2(n)
  }

  /** Dividing a natural number by a positive one gives a natural number no
      larger than it. */
  lemma DivBounds(x: nat, d: int)
    requires d >= 1
    ensures 0 <= x / d <= x
  {
    DivModUnique(x, d, x / d, x % d);
  }

  /** Python's `a | b` on non-negative integers, bit by bit from the lowest.
      It lies between the larger operand and their sum; BitOrKeepsBits shows
      that it keeps every bit of both operands, and OrDisjoint gives its value
      for operands with no common bit. */
  function BitOr(a: nat, b: nat): (r: nat)
    ensures a <= r && b <= r && r <= a + b
  {
    if a == 0 then b
    else if b == 0 then a
    else 2 * BitOr(a / 2, b / 2) + (if a % 2 == 1 || b % 2 == 1 then 1 else 0)
  }

  /** Python's `a & b` on non-negative integers, bit by bit from the lowest. */
  function BitAnd(a: nat, b: nat): (r: nat)
  {
    if a == 0 || b == 0 then 0
    else 2 * BitAnd(a / 2, b / 2) + (if a % 2 == 1 && b % 2 == 1 then 1 else 0)
  }

  /** And-ing a value with itself keeps it. */
  lemma {:induction false} BitAndSelf(x: nat)
    ensures BitAnd(x, x) == x
  {
    if x > 0 {
      BitAndSelf(x / 2);
    }
  }

  /** `a | b` keeps every bit of both operands: masking it with either
      operand gives that operand back. */
  lemma {:induction false} BitOrKeepsBits(a: nat, b: nat)
    ensures BitAnd(BitOr(a, b), a) == a && BitAnd(BitOr(a, b), b) == b
    decreases a + b
  {
    if a == 0 {
      BitAndSelf(b);
    } else if b == 0 {
      BitAndSelf(a);
    } else {
      BitOrKeepsBits(a / 2, b / 2);
      var r, h := BitOr(a, b), BitOr(a / 2, b / 2);
      var c := if a % 2 == 1 || b % 2 == 1 then 1 else 0;
      assert r == 2 * h + c;
      assert r / 2 == h && r % 2 == c;
      assert BitAnd(r, a) == 2 * BitAnd(h, a / 2) + (if c == 1 && a % 2 == 1 then 1 else 0);
      assert BitAnd(r, b) == 2 * BitAnd(h, b / 2) + (if c == 1 && b % 2 == 1 then 1 else 0);
    }
  }

  /** Or-ing a value shifted left by `k` with one below `2^k` is addition:
      the two have no bit in common. */
  lemma {:induction false} OrDisjoint(a: nat, b: nat, k: nat)
    requires b < Pow2(k)
    ensures BitOr(a * Pow2(k), b) == a * Pow2(k) + b
  {
    var m := a * Pow2(k);
    if m == 0 || b == 0 {
    } else {
      assert k > 0;
      var h := a * Pow2(k - 1);
      assert m == 2 * h;
      assert m / 2 == h && m % 2 == 0;
      OrDisjoint(a, b / 2, k - 1);
      assert BitOr(m, b) == 2 * BitOr(h, b / 2) + b % 2;
    }
  }

  /** Division with remainder is unique. */
  lemma DivModUnique(x: int, d: int, s: int, m: int)
    requires d > 0 && 0 <= m < d && x == d * s + m
    ensures x / d == s && x % d == m
  {
    var k := x / d - s;
    assert d * k == m - x % d;
  }

  /** Dividing by `2p` splits into halving and then dividing by `p`. */
  lemma ModDouble(x: nat, p: nat)
    requires p >= 1
    ensures x % (2 * p) == 2 * ((x / 2) % p) + x % 2
  {
    var q, r := x / 2, x % 2;
    var s, t := q / p, q % p;
    assert q == p * s + t;
    assert x == (2 * p) * s + (2 * t + r);
    DivModUnique(x, 2 * p, s, 2 * t + r);
  }

  /** Doubling both operands doubles their or. */
  lemma OrDouble(x: nat, y: nat)
    ensures BitOr(2 * x, 2 * y) == 2 * BitOr(x, y)
  {
    if x != 0 && y != 0 {
      assert (2 * x) / 2 == x && (2 * y) / 2 == y;
      assert (2 * x) % 2 == 0 && (2 * y) % 2 == 0;
    }
  }

  lemma MulDouble(x: nat, p: nat)
    ensures x * (2 * p) == 2 * (x * p)
  {
  }

  /** Shifting both operands left by `j` shifts their or left by `j`. */
  lemma {:induction false} OrShift(x: nat, y: nat, j: nat)
    ensures BitOr(x * Pow2(j), y * Pow2(j)) == BitOr(x, y) * Pow2(j)
  {
    if j > 0 {
      var p := Pow2(j - 1);
      assert Pow2(j) == 2 * p;
      MulDouble(x, p);
      MulDouble(y, p);
      MulDouble(BitOr(x, y), p);
      OrDouble(x * p, y * p);
      OrShift(x, y, j - 1);
    }
  }

  /** And-ing with the mask `2^k - 1` keeps the low `k` bits. */
  lemma {:induction false} AndMask(x: nat, k: nat)
    ensures BitAnd(x, Pow2(k) - 1) == x % Pow2(k)
  {
    var mask := Pow2(k) - 1;
    if x == 0 || mask == 0 {
    } else {
      assert k > 0;
      assert mask / 2 == Pow2(k - 1) - 1 && mask % 2 == 1;
      AndMask(x / 2, k - 1);
      ModDouble(x, Pow2(k - 1));
    }
  }

  lemma Pow2Bytes()
    ensures Pow2(8) == 0x100 && Pow2(16) == 0x1_0000 && Pow2(24) == 0x100_0000
  {
    assert Pow2(4) == 16;
    assert Pow2(8) == 0x100;
    assert Pow2(12) == 0x1000;
    assert Pow2(16) == 0x1_0000;
    assert Pow2(20) == 0x10_0000;
  }

  /** Reference reading of a byte string as an unsigned little-endian integer:
      the first byte is the least significant one. */
  function LittleEndian(bs: seq<Byte>): (v: nat)
  {
    if bs == [] then 0 else bs[0] + 256 * LittleEndian(bs[1..])
  }

  /** `hi << 8 | lo`, as the decoder composes every 16-bit field. */
  function U16(lo: Byte, hi: Byte): (r: nat)
    ensures r == hi * 0x100 + lo
    ensures r < 0x1_0000
    ensures r == LittleEndian([lo, hi])
  {
    Pow2Bytes();
    OrDisjoint(hi, lo, 8);
    assert LittleEndian([lo, hi]) == lo + 256 * LittleEndian([hi]) by {
      assert [lo, hi][1..] == [hi];
    }
    assert LittleEndian([hi]) == hi by {
      assert [hi][1..] == [];
    }
    BitOr(Shl(hi, 8), lo)
  }

  /** `b3 << 24 | b2 << 16 | b1 << 8 | b0`, the 32-bit content offset. */
  function U32(b0: Byte, b1: Byte, b2: Byte, b3: Byte): (r: nat)
    ensures r == b3 * 0x100_0000 + b2 * 0x1_0000 + b1 * 0x100 + b0
    ensures r < 0x1_0000_0000
    ensures r == LittleEndian([b0, b1, b2, b3])
  {
    OrChain(b0, b1, b2, b3);
    LittleEndian4(b0, b1, b2, b3);
    BitOr(BitOr(BitOr(Shl(b3, 24), Shl(b2, 16)), Shl(b1, 8)), b0)
  }

  /** The three or-operations of U32 never meet a common bit, so they add. */
  lemma OrChain(b0: Byte, b1: Byte, b2: Byte, b3: Byte)
    ensures BitOr(BitOr(BitOr(Shl(b3, 24), Shl(b2, 16)), Shl(b1, 8)), b0)
            == b3 * 0x100_0000 + b2 * 0x1_0000 + b1 * 0x100 + b0
  {
    Pow2Bytes();
    // b3 << 24 | b2 << 16 == (b3 << 8 | b2) << 16
    OrShift(b3 * 0x100, b2, 16);
    OrDisjoint(b3, b2, 8);
    var t2 := b3 * 0x100 + b2;
    assert BitOr(Shl(b3, 24), Shl(b2, 16)) == t2 * 0x1_0000;
    // ... | b1 << 8 == (t2 << 8 | b1) << 8
    OrShift(t2 * 0x100, b1, 8);
    OrDisjoint(t2, b1, 8);
    var t1 := t2 * 0x100 + b1;
    assert BitOr(t2 * 0x1_0000, Shl(b1, 8)) == t1 * 0x100;
    // ... | b0
    OrDisjoint(t1, b0, 8);
  }

  lemma LittleEndian4(b0: Byte, b1: Byte, b2: Byte, b3: Byte)
    ensures LittleEndian([b0, b1, b2, b3]) == b3 * 0x100_0000 + b2 * 0x1_0000 + b1 * 0x100 + b0
  {
    assert LittleEndian([b0, b1, b2, b3]) == b0 + 256 * LittleEndian([b1, b2, b3]) by {
      assert [b0, b1, b2, b3][1..] == [b1, b2, b3];
    }
    assert LittleEndian([b1, b2, b3]) == b1 + 256 * LittleEndian([b2, b3]) by {
      assert [b1, b2, b3][1..] == [b2, b3];
    }
    assert LittleEndian([b2, b3]) == b2 + 256 * LittleEndian([b3]) by {
      assert [b2, b3][1..] == [b3];
    }
    assert LittleEndian([b3]) == b3 by {
      assert [b3][1..] == [];
    }
  }

  /** `x & 0xFF`: the low byte of an address, the inverse half of U16. */
  function LoByte(x: nat): (b: Byte)
    ensures b == x % 256
  {
    Pow2Bytes();
    AndMask(x, 8);
    BitAnd(x, 0xFF)
  }

  /** `x >> 8`: the high byte of a 16-bit address, the other inverse half of U16. */
  function HiByte(x: nat): (b: Byte)
    requires x < 0x1_0000
    ensures b == x / 256
  {
    Pow2Bytes();
    Shr(x, 8)
  }

  /** Splitting a composed address gives back the two bytes it was made of. */
  lemma SplitCompose(lo: Byte, hi: Byte)
    ensures LoByte(U16(lo, hi)) == lo && HiByte(U16(lo, hi)) == hi
  {
    DivModUnique(U16(lo, hi), 256, hi, lo);
  }

  /** Composing the two halves of a 16-bit address gives back the address. */
  lemma ComposeSplit(x: nat)
    requires x < 0x1_0000
    ensures U16(LoByte(x), HiByte(x)) == x
  {
  }

  /** Python's normalisation of one slice bound against a length `n`:
      a negative bound counts from the end, and the result is clamped to 0..n. */
  function SliceBound(i: int, n: nat): (k: nat)
    ensures k <= n
    ensures 0 <= i <= n ==> k == i
  {
    if i < 0 then (if i + n < 0 then 0 else i + n)
    else if i > n then n
    else i
  }

  /** Python's `s[i:j]` on a byte string: never fails, and is empty when the
      normalised bounds are reversed. */
  function PySlice(s: seq<Byte>, i: int, j: int): (r: seq<Byte>)
    ensures |r| <= |s|
    ensures 0 <= i <= j <= |s| ==> r == s[i..j]
    ensures SliceBound(j, |s|) <= SliceBound(i, |s|) ==> r == []
    ensures SliceBound(i, |s|) < SliceBound(j, |s|) ==> r == s[SliceBound(i, |s|)..SliceBound(j, |s|)]
  {
    var lo, hi := SliceBound(i, |s|), SliceBound(j, |s|);
    if lo < hi then s[lo..hi] else []
  }
}

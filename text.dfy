/** The string operations the decoder applies to names and addresses:
    Python's `str.strip()` and `str.lower()` restricted to ASCII, and
    `format(x, '04x')`. */
module Text {
  import opened Bytes

  /** Bytes read as characters, one per byte with the same code. This agrees
      with the UTF-8 decoding the source applies on every ASCII byte. */
  function FromBytes(bs: seq<Byte>): (r: string)
    ensures |r| == |bs|
    ensures forall i :: 0 <= i < |bs| ==> r[i] as int == bs[i]
  {
    seq(|bs|, i requires 0 <= i < |bs| => bs[i] as char)
  }

  /** Distinct byte strings decode to distinct strings, so comparing decoded
      names is comparing the stored bytes. */
  lemma FromBytesInjective(a: seq<Byte>, b: seq<Byte>)
    requires FromBytes(a) == FromBytes(b)
    ensures a == b
  {
    assert |a| == |b|;
    forall i | 0 <= i < |a|
      ensures a[i] == b[i]
    {
      assert a[i] == FromBytes(a)[i] as int == FromBytes(b)[i] as int == b[i];
    }
  }

  /** What `str.isspace()` accepts among the ASCII characters: tab, line feed,
      vertical tab, form feed, carriage return, the four separators 0x1C-0x1F,
      and space. */
  predicate IsSpace(c: char)
  {
    c == ' ' || (9 <= c as int <= 13) || (0x1C <= c as int <= 0x1F)
  }

  predicate IsUpper(c: char)
  {
    'A' <= c <= 'Z'
  }

  predicate NoSpaceAtEnds(s: string)
  {
    s == [] || (!IsSpace(s[0]) && !IsSpace(s[|s| - 1]))
  }

  predicate AllSpace(s: string)
  {
    forall i :: 0 <= i < |s| ==> IsSpace(s[i])
  }

  /** `s.lstrip()`: drops the leading whitespace. */
  function StripLeft(s: string): (r: string)
    ensures |r| <= |s| && r == s[|s| - |r|..]
    ensures AllSpace(s[..|s| - |r|])
    ensures r == [] || !IsSpace(r[0])
  {
    if s != [] && IsSpace(s[0]) then StripLeft(s[1..]) else s
  }

  /** `s.rstrip()`: drops the trailing whitespace. */
  function StripRight(s: string): (r: string)
    ensures |r| <= |s| && r == s[..|r|]
    ensures AllSpace(s[|r|..])
    ensures r == [] || !IsSpace(r[|r| - 1])
  {
    if s != [] && IsSpace(s[|s| - 1]) then StripRight(s[..|s| - 1]) else s
  }

  /** `s.strip()`. */
  function Strip(s: string): (r: string)
    ensures NoSpaceAtEnds(r)
    ensures r == [] <==> AllSpace(s)
  {
    var l := StripLeft(s);
    assert l == [] ==> AllSpace(s) by {
      if l == [] { assert s[..|s|] == s; }
    }
    StripRight(l)
  }

  lemma {:induction false} StripLeftPadded(pad: string, core: string)
    requires AllSpace(pad)
    requires core == [] || !IsSpace(core[0])
    ensures StripLeft(pad + core) == core
  {
    if pad != [] {
      assert (pad + core)[1..] == pad[1..] + core;
      StripLeftPadded(pad[1..], core);
    } else {
      assert pad + core == core;
    }
  }

  lemma {:induction false} StripRightPadded(core: string, pad: string)
    requires AllSpace(pad)
    requires core == [] || !IsSpace(core[|core| - 1])
    ensures StripRight(core + pad) == core
  {
    if pad != [] {
      assert (core + pad)[..|core + pad| - 1] == core + pad[..|pad| - 1];
      StripRightPadded(core, pad[..|pad| - 1]);
    } else {
      assert core + pad == core;
    }
  }

  /** Stripping a padded field gives back exactly what was padded: the partner
      of the space-padded fixed-width names of the archive. */
  lemma StripPadded(left: string, core: string, right: string)
    requires AllSpace(left) && AllSpace(right) && NoSpaceAtEnds(core)
    ensures Strip(left + core + right) == core
  {
    assert left + core + right == left + (core + right);
    if core == [] {
      assert core + right == right;
      StripLeftPadded(left + right, []);
      assert left + right + [] == left + right;
      assert StripLeft(left + right) == [];
    } else {
      assert (core + right)[0] == core[0];
      StripLeftPadded(left, core + right);
      StripRightPadded(core, right);
    }
  }

  /** Stripping twice strips nothing more. */
  lemma StripIdempotent(s: string)
    ensures Strip(Strip(s)) == Strip(s)
  {
    var r := Strip(s);
    assert StripLeft(r) == r;
    assert StripRight(r) == r;
  }

  function LowerChar(c: char): (d: char)
  {
    if IsUpper(c) then (c as int + 32) as char else c
  }

  /** `s.lower()` on ASCII letters; every other character is kept. */
  function Lower(s: string): (r: string)
    ensures |r| == |s|
    ensures forall i :: 0 <= i < |s| ==> !IsUpper(r[i])
    ensures forall i :: 0 <= i < |s| && !IsUpper(s[i]) ==> r[i] == s[i]
    ensures forall i :: 0 <= i < |s| && IsUpper(s[i]) ==> r[i] as int == s[i] as int + 32
  {
    seq(|s|, i requires 0 <= i < |s| => LowerChar(s[i]))
  }

  lemma LowerIdempotent(s: string)
    ensures Lower(Lower(s)) == Lower(s)
  {
  }

  lemma LowerSlices(s: string)
    requires s != []
    ensures Lower(s)[1..] == Lower(s[1..])
    ensures Lower(s)[..|s| - 1] == Lower(s[..|s| - 1])
  {
  }

  lemma {:induction false} StripLeftLower(s: string)
    ensures StripLeft(Lower(s)) == Lower(StripLeft(s))
  {
    if s != [] {
      LowerSlices(s);
      assert IsSpace(Lower(s)[0]) == IsSpace(s[0]);
      if IsSpace(s[0]) {
        StripLeftLower(s[1..]);
      }
    }
  }

  lemma {:induction false} StripRightLower(s: string)
    ensures StripRight(Lower(s)) == Lower(StripRight(s))
  {
    if s != [] {
      LowerSlices(s);
      assert IsSpace(Lower(s)[|s| - 1]) == IsSpace(s[|s| - 1]);
      if IsSpace(s[|s| - 1]) {
        StripRightLower(s[..|s| - 1]);
      }
    }
  }

  /** Lowering keeps every character's whitespace class, so it commutes with
      stripping: `s.strip().lower() == s.lower().strip()`. */
  lemma StripLowerCommute(s: string)
    ensures Lower(Strip(s)) == Strip(Lower(s))
  {
    StripLeftLower(s);
    StripRightLower(StripLeft(s));
  }

  /** The name normalisation the decoder uses for matching and file names:
      `name.strip().lower()`. */
  function Normalize(s: string): (r: string)
    ensures NoSpaceAtEnds(r)
    ensures forall i :: 0 <= i < |r| ==> !IsUpper(r[i])
  {
    var t := Strip(s);
    var r := Lower(t);
    assert r != [] ==> r[0] == LowerChar(t[0]) && r[|r| - 1] == LowerChar(t[|t| - 1]);
    r
  }

  /** Normalising an already normalised name changes nothing. */
  lemma NormalizeIdempotent(s: string)
    ensures Normalize(Normalize(s)) == Normalize(s)
  {
    var n := Normalize(s);
    assert StripLeft(n) == n;
    assert StripRight(n) == n;
    assert Lower(n) == n;
  }

  const HexChars: string := "0123456789abcdef"

  function HexDigit(d: nat): (c: char)
    requires d < 16
  {
    HexChars[d]
  }

  /** The value of one lower-case hexadecimal digit; the inverse of HexDigit. */
  function DigitValue(c: char): (v: nat)
    ensures v < 16
    ensures forall d :: 0 <= d < 16 && HexDigit(d) == c ==> v == d
  {
    if '0' <= c <= '9' then c as int - '0' as int
    else if 'a' <= c <= 'f' then c as int - 'a' as int + 10
    else 0
  }

  predicate IsHexDigit(c: char)
  {
    ('0' <= c <= '9') || ('a' <= c <= 'f')
  }

  /** Reference reading of a string of hexadecimal digits, most significant first. */
  function ParseHex(s: string): (v: nat)
  {
    if s == [] then 0 else 16 * ParseHex(s[..|s| - 1]) + DigitValue(s[|s| - 1])
  }

  /** `format(x, 'x')`: the shortest lower-case hexadecimal spelling, with
      no leading zero except for `x == 0` itself. */
  function HexString(x: nat): (r: string)
    ensures |r| >= 1
    ensures forall i :: 0 <= i < |r| ==> IsHexDigit(r[i])
    ensures x > 0 ==> r[0] != '0'
    decreases x
  {
    if x < 16 then
      assert DigitValue('0') == 0;
      [HexDigit(x)]
    else HexString(x / 16) + [HexDigit(x % 16)]
  }

  /** `format(x, '04x')`: at least four digits, left-padded with '0'. */
  function Hex04(x: nat): (r: string)
    ensures forall i :: 0 <= i < |r| ==> IsHexDigit(r[i])
  {
    var h := HexString(x);
    if |h| < 4 then Zeros(4 - |h|) + h else h
  }

  function Zeros(n: nat): (r: string)
    ensures |r| == n && forall i :: 0 <= i < n ==> r[i] == '0'
  {
    if n == 0 then [] else Zeros(n - 1) + ['0']
  }

  lemma {:induction false} HexStringRoundTrip(x: nat)
    ensures ParseHex(HexString(x)) == x
    decreases x
  {
    var h := HexString(x);
    if x < 16 {
      assert h[..0] == [];
    } else {
      HexStringRoundTrip(x / 16);
      assert h[..|h| - 1] == HexString(x / 16);
    }
  }

  function Pow16(k: nat): (p: nat)
  {
    if k == 0 then 1 else 16 * Pow16(k - 1)
  }

  lemma {:induction false} HexStringLength(x: nat, k: nat)
    requires 1 <= k && x < Pow16(k)
    ensures |HexString(x)| <= k
    decreases x
  {
    if x >= 16 {
      assert k >= 2;
      assert x / 16 < Pow16(k - 1);
      HexStringLength(x / 16, k - 1);
    }
  }

  lemma {:induction false} ParseLeadingZeros(n: nat, s: string)
    ensures ParseHex(Zeros(n) + s) == ParseHex(s)
    decreases |s|
  {
    if s == [] {
      ParseZeros(n);
      assert Zeros(n) + s == Zeros(n);
    } else {
      assert (Zeros(n) + s)[..|Zeros(n) + s| - 1] == Zeros(n) + s[..|s| - 1];
      ParseLeadingZeros(n, s[..|s| - 1]);
    }
  }

  lemma {:induction false} ParseZeros(n: nat)
    ensures ParseHex(Zeros(n)) == 0
  {
    if n > 0 {
      assert Zeros(n)[..n - 1] == Zeros(n - 1);
      ParseZeros(n - 1);
    }
  }

  /** For a 16-bit value, `format(x, '04x')` is exactly four hexadecimal
      digits, and reading them back gives the value. */
  lemma Hex04Address(x: nat)
    requires x < 0x1_0000
    ensures |Hex04(x)| == 4
    ensures ParseHex(Hex04(x)) == x
  {
    Hex04Length(x);
    HexStringRoundTrip(x);
    if |HexString(x)| < 4 {
      ParseLeadingZeros(4 - |HexString(x)|, HexString(x));
    }
  }

  /** A 16-bit value needs at most four digits, so `format(x, '04x')` has exactly four. */
  lemma Hex04Length(x: nat)
    requires x < 0x1_0000
    ensures |Hex04(x)| == 4
  {
    assert Pow16(4) == 0x1_0000;
    HexStringLength(x, 4);
  }
}

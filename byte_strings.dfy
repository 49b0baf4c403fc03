/** The standard-library text operations the fdinfo parser applies to bytes:
    `memchr`, `str::trim_start` and `from_str_radix`, together with a formatter
    of numbers in a radix, which the parser's round-trip proofs use. */
module ByteStrings {
  import opened Linux
  import opened Outcomes

  const Space: byte := 32
  const LineFeed: byte := 10
  const Plus: byte := 43
  const Minus: byte := 45
  const Zero: byte := 48

  /** ASCII whitespace as `char::is_whitespace` sees it: tab, line feed,
      vertical tab, form feed, carriage return and space. */
  predicate IsWhitespace(b: byte) {
    b == Space || 9 <= b <= 13
  }

  /** `memchr`: the index of the first occurrence of `b` in `s`. */
  function IndexOf(s: seq<byte>, b: byte): (r: Option<nat>)
    ensures r.None? <==> b !in s
    ensures r.Some? ==> r.value < |s| && s[r.value] == b && b !in s[..r.value]
  {
    if s == [] then None
    else if s[0] == b then Some(0)
    else match IndexOf(s[1..], b)
      case None => None
      case Some(i) => assert s[1..][..i] == s[1..i + 1]; Some(i + 1)
  }

  /** `str::trim_start` on ASCII text. */
  function TrimStart(s: seq<byte>): (r: seq<byte>)
    ensures |r| <= |s| && r == s[|s| - |r|..]
    ensures r == [] || !IsWhitespace(r[0])
    ensures forall i | 0 <= i < |s| - |r| :: IsWhitespace(s[i])
  {
    if s != [] && IsWhitespace(s[0]) then TrimStart(s[1..]) else s
  }

  /** The value of an ASCII digit in any radix up to 36 (letters in either
      case), or 36 for a byte that is no digit. */
  function DigitOf(b: byte): (d: nat)
    ensures d <= 36
  {
    if 48 <= b <= 57 then b - 48
    else if 97 <= b <= 122 then b - 87
    else if 65 <= b <= 90 then b - 55
    else 36
  }

  predicate AllDigits(s: seq<byte>, radix: nat) {
    forall i | 0 <= i < |s| :: DigitOf(s[i]) < radix
  }

  /** The number a string of digits denotes, most significant digit first. */
  function Value(s: seq<byte>, radix: nat): nat {
    if s == [] then 0 else Value(s[..|s| - 1], radix) * radix + DigitOf(s[|s| - 1])
  }

  /** `from_str_radix` for an integer type ranging over `lo..=hi`: an optional
      `+` (or `-` for a signed type), then at least one digit of the radix,
      and a value within range. */
  function FromStrRadix(s: seq<byte>, radix: nat, lo: int, hi: int): (r: Option<int>)
    requires 2 <= radix <= 36
    ensures r.Some? ==> lo <= r.value <= hi
    ensures s == [] ==> r.None?
    ensures r.Some? && r.value < 0 ==> s[0] == Minus
  {
    if s == [] || (|s| == 1 && (s[0] == Plus || s[0] == Minus)) then None
    else
      var negative := s[0] == Minus && lo < 0;
      var digits := if s[0] == Plus || negative then s[1..] else s;
      if !AllDigits(digits, radix) then None
      else
        var v: int := if negative then -(Value(digits, radix) as int) else Value(digits, radix);
        if lo <= v <= hi then Some(v) else None
  }

  // ---- Formatting numbers, the inverse of the digit parser

  function DigitByte(d: nat): (b: byte)
    requires d < 36
    ensures DigitOf(b) == d
    ensures !IsWhitespace(b) && b != Plus && b != Minus
  {
    if d < 10 then 48 + d else 87 + d
  }

  /** `n` in the radix, lower-case, without leading zeros (`{:x}`, `{}`). */
  function ToDigits(n: nat, radix: nat): (r: seq<byte>)
    requires 2 <= radix <= 36
    ensures r != [] && AllDigits(r, radix)
    ensures !IsWhitespace(r[0]) && r[0] != Plus && r[0] != Minus
    ensures Space !in r
    decreases n
  {
    if n < radix then [DigitByte(n)]
    else
      DivModBounds(n, radix);
      var init := ToDigits(n / radix, radix);
      var last := DigitByte(n % radix);
      assert !IsWhitespace(init[0]) && init[0] != Plus && init[0] != Minus;
      init + [last]
  }

  /** Euclidean division by a radix: the quotient is smaller, the remainder is
      a digit, and the two rebuild the number. */
  lemma DivModBounds(n: nat, radix: nat)
    requires 2 <= radix && n >= radix
    ensures 0 < n / radix < n && 0 <= n % radix < radix
    ensures n == (n / radix) * radix + n % radix
  {
  }

  lemma DivBelowPow(n: nat, radix: nat, p: nat)
    requires 2 <= radix && n < radix * p
    ensures n / radix < p
  {
  }

  function Pow(base: nat, e: nat): nat {
    if e == 0 then 1 else base * Pow(base, e - 1)
  }

  /** `k` spaces, the padding of a right-aligned field (`{:8}`). */
  function Spaces(k: nat): (r: seq<byte>)
    ensures |r| == k && forall i | 0 <= i < k :: r[i] == Space
  {
    seq(k, _ => Space)
  }

  function PadLeft(s: seq<byte>, width: nat): (r: seq<byte>)
    ensures |s| <= width ==> |r| == width
  {
    if |s| < width then Spaces(width - |s|) + s else s
  }

  lemma {:induction false} ValueOfToDigits(n: nat, radix: nat)
    requires 2 <= radix <= 36
    ensures Value(ToDigits(n, radix), radix) == n
    decreases n
  {
    if n >= radix {
      var s := ToDigits(n, radix);
      DivModBounds(n, radix);
      assert s == ToDigits(n / radix, radix) + [DigitByte(n % radix)];
      assert s[..|s| - 1] == ToDigits(n / radix, radix);
      ValueOfToDigits(n / radix, radix);
    }
  }

  lemma {:induction false} ToDigitsFits(n: nat, radix: nat, width: nat)
    requires 2 <= radix <= 36 && 1 <= width && n < Pow(radix, width)
    ensures |ToDigits(n, radix)| <= width
    decreases width
  {
    assert Pow(radix, 1) == radix;
    if n >= radix {
      assert width > 1;
      DivModBounds(n, radix);
      DivBelowPow(n, radix, Pow(radix, width - 1));
      ToDigitsFits(n / radix, radix, width - 1);
    }
  }

  /** Parsing what the formatter prints gives back the number. */
  lemma FromStrRadixRoundTrip(n: nat, radix: nat, lo: int, hi: int)
    requires 2 <= radix <= 36 && lo <= n <= hi
    ensures FromStrRadix(ToDigits(n, radix), radix, lo, hi) == Some(n)
  {
    ValueOfToDigits(n, radix);
  }

  /** A leading zero adds nothing to a number's value. */
  lemma {:induction false} ValueLeadingZero(s: seq<byte>, radix: nat)
    ensures Value([Zero] + s, radix) == Value(s, radix)
    decreases |s|
  {
    if s != [] {
      assert ([Zero] + s)[..|s|] == [Zero] + s[..|s| - 1];
      ValueLeadingZero(s[..|s| - 1], radix);
    }
  }

  /** Digits printed after a `0` (C's `0%o`) parse back to the number too. */
  lemma FromStrRadixLeadingZero(n: nat, radix: nat, lo: int, hi: int)
    requires 2 <= radix <= 36 && lo <= n <= hi
    ensures FromStrRadix([Zero] + ToDigits(n, radix), radix, lo, hi) == Some(n)
  {
    var digits := ToDigits(n, radix);
    ValueOfToDigits(n, radix);
    ValueLeadingZero(digits, radix);
    assert AllDigits([Zero] + digits, radix) by {
      forall i | 0 <= i < |digits| + 1
        ensures DigitOf(([Zero] + digits)[i]) < radix
      {
        if i > 0 { assert ([Zero] + digits)[i] == digits[i - 1]; }
      }
    }
  }

  /** Trimming the padding of a right-aligned number gives the digits back. */
  lemma {:induction false} TrimStartPadLeft(n: nat, radix: nat, width: nat)
    requires 2 <= radix <= 36
    ensures TrimStart(PadLeft(ToDigits(n, radix), width)) == ToDigits(n, radix)
  {
    var d := ToDigits(n, radix);
    if |d| < width {
      TrimStartSpaces(width - |d|, d);
    }
  }

  lemma {:induction false} TrimStartSpaces(k: nat, d: seq<byte>)
    requires d != [] && !IsWhitespace(d[0])
    ensures TrimStart(Spaces(k) + d) == d
    decreases k
  {
    if k > 0 {
      assert (Spaces(k) + d)[1..] == Spaces(k - 1) + d;
      TrimStartSpaces(k - 1, d);
    } else {
      assert Spaces(k) + d == d;
    }
  }
}

/**
 * The parts of the Arduino `String` class and of the C library that the
 * WebAPI dispatcher relies on: substring search (`String::indexOf`), integer
 * parsing (`String::toInt`, which is `atol`), decimal rendering
 * (`String(int)` and friends) and the 32-bit casts applied to parsed
 * integers. Strings are `seq<char>` and are assumed to hold no NUL character
 * (the C functions underneath stop at the first one).
 */
module ArduinoString {

  // ---------------------------------------------------------------------------
  // Fixed-width integers
  // ---------------------------------------------------------------------------

  const TWO_32: int := 0x1_0000_0000
  const INT32_MIN: int := -0x8000_0000
  const INT32_MAX: int := 0x7FFF_FFFF
  const INT64_MIN: int := -0x8000_0000_0000_0000
  const INT64_MAX: int := 0x7FFF_FFFF_FFFF_FFFF

  type UInt8 = x: int | 0 <= x < 0x100
  type UInt16 = x: int | 0 <= x < 0x1_0000
  type UInt32 = x: int | 0 <= x < 0x1_0000_0000
  type Int32 = x: int | -0x8000_0000 <= x < 0x8000_0000

  /** C conversion of an integer to `uint32_t`: reduction modulo 2^32. */
  function ToUInt32(x: int): (r: UInt32)
    ensures (r - x) % TWO_32 == 0
  {
    x % TWO_32
  }

  /** Conversion to `int32_t` as GCC defines it: the value congruent to `x`
      modulo 2^32 that lies in the signed range. */
  function ToInt32(x: int): (r: Int32)
    ensures (r - x) % TWO_32 == 0
  {
    var m := x % TWO_32;
    if m <= INT32_MAX then m else m - TWO_32
  }

  lemma Int32CastRoundTrip(x: int)
    requires INT32_MIN <= x <= INT32_MAX
    ensures ToInt32(ToUInt32(x)) == x
  {
    if x < 0 {
      assert ToUInt32(x) == x + TWO_32;
    }
  }

  lemma UInt32CastRoundTrip(x: int)
    requires 0 <= x < TWO_32
    ensures ToUInt32(ToInt32(x)) == x
  {
    if x > INT32_MAX {
      assert ToInt32(x) == x - TWO_32;
    }
  }

  /** `(uint32_t)(int32_t)x`: `x` reduced modulo 2^32. */
  lemma UIntThroughInt32Cast(x: int)
    ensures ToUInt32(ToInt32(x)) == x % TWO_32
    ensures (ToUInt32(ToInt32(x)) - x) % TWO_32 == 0
    ensures 0 <= x < TWO_32 ==> ToUInt32(ToInt32(x)) == x
  {
    var m := x % TWO_32;
    UInt32CastRoundTrip(m);
    assert ToInt32(x) == ToInt32(m);
    ModOfDifference(x);
  }

  /** `(int32_t)(uint32_t)x`: `x` reduced into the signed 32-bit range. */
  lemma IntThroughUInt32Cast(x: int)
    ensures ToInt32(ToUInt32(x)) == ToInt32(x)
    ensures (ToInt32(ToUInt32(x)) - x) % TWO_32 == 0
    ensures INT32_MIN <= x <= INT32_MAX ==> ToInt32(ToUInt32(x)) == x
  {
    var m := x % TWO_32;
    assert ToUInt32(x) == m;
    assert m % TWO_32 == m;
    if INT32_MIN <= x <= INT32_MAX {
      Int32CastRoundTrip(x);
    }
  }

  lemma ModOfDifference(x: int)
    ensures (x % TWO_32 - x) % TWO_32 == 0
  {
    var q := x / TWO_32;
    assert x == q * TWO_32 + x % TWO_32;
    assert x % TWO_32 - x == (-q) * TWO_32;
  }

  /** A value pinned into `[lo, hi]`, as `strtol` pins out-of-range input. */
  function Saturate(x: int, lo: int, hi: int): (r: int)
    requires lo <= hi
    ensures lo <= r <= hi
    ensures lo <= x <= hi ==> r == x
    ensures x < lo ==> r == lo
    ensures x > hi ==> r == hi
  {
    if x < lo then lo else if x > hi then hi else x
  }

  // ---------------------------------------------------------------------------
  // Substring search: String::indexOf(const String &)
  // ---------------------------------------------------------------------------

  /** `needle` occurs in `hay` starting at position `k`. */
  predicate OccursAt(hay: string, needle: string, k: int)
  {
    0 <= k && k + |needle| <= |hay| && hay[k..k + |needle|] == needle
  }

  /** The `strstr` scan: the first occurrence of `needle` at or after
      `from`, or -1. */
  function SearchFrom(hay: string, needle: string, from: nat): (r: int)
    requires from <= |hay|
    ensures r == -1 || (from <= r && r + |needle| <= |hay|)
    ensures needle == [] ==> r == from
    decreases |hay| - from
  {
    if from + |needle| > |hay| then -1
    else if hay[from..from + |needle|] == needle then from
    else if from == |hay| then -1
    else SearchFrom(hay, needle, from + 1)
  }

  /** The scan stops at an occurrence and skips none. */
  lemma {:induction false} SearchFromIsFirst(hay: string, needle: string, from: nat)
    requires from <= |hay|
    ensures SearchFrom(hay, needle, from) >= 0 ==> OccursAt(hay, needle, SearchFrom(hay, needle, from))
    ensures SearchFrom(hay, needle, from) >= 0 ==>
              forall k :: from <= k < SearchFrom(hay, needle, from) ==> !OccursAt(hay, needle, k)
    ensures SearchFrom(hay, needle, from) == -1 ==>
              forall k :: from <= k ==> !OccursAt(hay, needle, k)
    decreases |hay| - from
  {
    if from + |needle| <= |hay| && hay[from..from + |needle|] != needle && from < |hay| {
      SearchFromIsFirst(hay, needle, from + 1);
    }
  }

  /**
   * `hay.indexOf(needle)`: the position of the first occurrence, or -1.
   * Arduino's implementation starts with `if (fromIndex >= len) return -1`,
   * so an empty `hay` yields -1 even for an empty `needle`.
   */
  function IndexOf(hay: string, needle: string): (r: int)
    ensures -1 <= r < |hay|
  {
    if |hay| == 0 then -1 else SearchFrom(hay, needle, 0)
  }

  /** `IndexOf` finds the first occurrence, and reports -1 exactly when
      `hay` is empty or holds no occurrence at all. */
  lemma IndexOfIsFirst(hay: string, needle: string)
    ensures IndexOf(hay, needle) >= 0 ==> OccursAt(hay, needle, IndexOf(hay, needle))
    ensures IndexOf(hay, needle) >= 0 ==> forall k :: 0 <= k < IndexOf(hay, needle) ==> !OccursAt(hay, needle, k)
    ensures IndexOf(hay, needle) == -1 <==> |hay| == 0 || forall k :: !OccursAt(hay, needle, k)
  {
    if |hay| > 0 {
      SearchFromIsFirst(hay, needle, 0);
    }
  }

  /** `hay.indexOf(needle) >= 0`, the containment test of the dispatcher. */
  predicate Contains(hay: string, needle: string)
  {
    IndexOf(hay, needle) >= 0
  }

  lemma ContainsIff(hay: string, needle: string)
    ensures Contains(hay, needle) <==> |hay| > 0 && exists k :: OccursAt(hay, needle, k)
  {
    IndexOfIsFirst(hay, needle);
  }

  /** Every non-empty string contains itself; the empty string contains nothing. */
  lemma ContainsSelf(s: string)
    ensures Contains(s, s) <==> s != []
  {
    if s != [] {
      IndexOfIsFirst(s, s);
      assert OccursAt(s, s, 0);
    }
  }

  /** A name occurring inside another name occurs in every token containing it. */
  lemma {:induction false} ContainsTransitive(token: string, mid: string, name: string)
    requires Contains(token, mid) && Contains(mid, name)
    ensures Contains(token, name)
  {
    IndexOfIsFirst(token, mid);
    IndexOfIsFirst(mid, name);
    var i := IndexOf(token, mid);
    var j := IndexOf(mid, name);
    assert token[i..i + |mid|] == mid;
    assert mid[j..j + |name|] == name;
    forall k | 0 <= k < |name|
      ensures token[i + j + k] == name[k]
    {
      assert token[i + j + k] == mid[j + k];
    }
    assert token[i + j..i + j + |name|] == name;
    IndexOfIsFirst(token, name);
    assert OccursAt(token, name, i + j);
  }

  // ---------------------------------------------------------------------------
  // Decimal rendering: String(bool), String(uint32_t), String(int32_t)
  // ---------------------------------------------------------------------------

  predicate IsDigit(c: char)
  {
    '0' <= c <= '9'
  }

  predicate AllDigits(s: string)
  {
    forall i :: 0 <= i < |s| ==> IsDigit(s[i])
  }

  function DigitChar(d: nat): (c: char)
    requires d < 10
    ensures IsDigit(c) && c as int - '0' as int == d
  {
    (d + '0' as int) as char
  }

  function DigitValue(c: char): (d: nat)
    requires IsDigit(c)
    ensures d < 10 && DigitChar(d) == c
  {
    c as int - '0' as int
  }

  /** Decimal digits of `n`, most significant first, without leading zeros. */
  function NatText(n: nat): (s: string)
    ensures |s| > 0 && AllDigits(s)
    ensures s[0] == '0' ==> n == 0
  {
    if n < 10 then [DigitChar(n)] else NatText(n / 10) + [DigitChar(n % 10)]
  }

  /** The decimal text `itoa`/`ltoa`/`utoa` produce: a `-` before negatives. */
  function IntText(i: int): (s: string)
    ensures |s| > 0
    ensures i < 0 <==> s[0] == '-'
  {
    if i < 0 then "-" + NatText(-i) else NatText(i)
  }

  // ---------------------------------------------------------------------------
  // Integer parsing: String::toInt() == atol(buffer) == strtol(buffer, NULL, 10)
  // ---------------------------------------------------------------------------

  /** The characters C's `isspace` accepts in the "C" locale. */
  predicate IsSpace(c: char)
  {
    c == ' ' || c == '\t' || c == '\n' || c == 11 as char || c == 12 as char || c == '\r'
  }

  function SkipSpaces(s: string): (t: string)
    ensures |t| <= |s| && t == s[|s| - |t|..]
    ensures t == [] || !IsSpace(t[0])
  {
    if s != [] && IsSpace(s[0]) then SkipSpaces(s[1..]) else s
  }

  /** The longest prefix of `s` made of decimal digits. */
  function LeadingDigits(s: string): (ds: string)
    ensures AllDigits(ds) && |ds| <= |s| && ds == s[..|ds|]
  {
    if s != [] && IsDigit(s[0]) then [s[0]] + LeadingDigits(s[1..]) else []
  }

  /** The number a string of digits denotes (0 for the empty string). */
  function DigitsValue(ds: string): nat
    requires AllDigits(ds)
  {
    if ds == [] then 0 else DigitsValue(ds[..|ds| - 1]) * 10 + DigitValue(ds[|ds| - 1])
  }

  /**
   * The exact value `strtol` reads: optional white space, an optional sign,
   * then the longest run of digits; 0 when there are no digits.
   */
  function LeadingNumber(s: string): (n: int)
    ensures n < 0 ==> SkipSpaces(s) != [] && SkipSpaces(s)[0] == '-'
  {
    var t := SkipSpaces(s);
    if t != [] && (t[0] == '-' || t[0] == '+') then
      var magnitude: int := DigitsValue(LeadingDigits(t[1..]));
      if t[0] == '-' then -magnitude else magnitude
    else DigitsValue(LeadingDigits(t))
  }

  /**
   * `String::toInt()` read as a conversion to a 64-bit integer, as the
   * comments beside the casts in WebAPI.cpp describe it ("Convert value to
   * int64"); out-of-range text saturates, as `strtoll` does.
   */
  function ToInt(s: string): (r: int)
    ensures INT64_MIN <= r <= INT64_MAX
    ensures INT64_MIN <= LeadingNumber(s) <= INT64_MAX ==> r == LeadingNumber(s)
    ensures LeadingNumber(s) > INT64_MAX ==> r == INT64_MAX
    ensures LeadingNumber(s) < INT64_MIN ==> r == INT64_MIN
  {
    Saturate(LeadingNumber(s), INT64_MIN, INT64_MAX)
  }

  /**
   * `String::toInt()` as it behaves on the ESP32: `atol` is `strtol`, and
   * `long` is 32 bits wide there, so the result saturates at the int32 bounds.
   */
  function ToIntOn32BitLong(s: string): (r: int)
    ensures INT32_MIN <= r <= INT32_MAX
    ensures INT32_MIN <= LeadingNumber(s) <= INT32_MAX ==> r == LeadingNumber(s)
    ensures LeadingNumber(s) > INT32_MAX ==> r == INT32_MAX
    ensures LeadingNumber(s) < INT32_MIN ==> r == INT32_MIN
  {
    Saturate(LeadingNumber(s), INT32_MIN, INT32_MAX)
  }

  /** The width of C's `long`, the type `String::toInt()` returns: 32 bits on
      the ESP32, 64 bits where the comments in WebAPI.cpp assume it. */
  datatype LongWidth = Long32 | Long64

  function LongMin(width: LongWidth): int
  {
    if width == Long32 then INT32_MIN else INT64_MIN
  }

  function LongMax(width: LongWidth): int
  {
    if width == Long32 then INT32_MAX else INT64_MAX
  }

  /** `String::toInt()` on a target whose `long` has the given width: the
      leading number of the text, pinned into the range of `long`. */
  function ReadLong(width: LongWidth, s: string): (r: int)
    ensures LongMin(width) <= r <= LongMax(width)
    ensures LongMin(width) <= LeadingNumber(s) <= LongMax(width) ==> r == LeadingNumber(s)
    ensures LeadingNumber(s) > LongMax(width) ==> r == LongMax(width)
    ensures LeadingNumber(s) < LongMin(width) ==> r == LongMin(width)
  {
    match width
    case Long32 => ToIntOn32BitLong(s)
    case Long64 => ToInt(s)
  }

  // ---------------------------------------------------------------------------
  // Parsing and rendering are inverse on canonical decimal text
  // ---------------------------------------------------------------------------

  lemma {:induction false} LeadingDigitsOfDigits(s: string)
    requires AllDigits(s)
    ensures LeadingDigits(s) == s
  {
    if s != [] {
      LeadingDigitsOfDigits(s[1..]);
    }
  }

  lemma {:induction false} DigitsValueOfNatText(n: nat)
    ensures DigitsValue(NatText(n)) == n
  {
    if n >= 10 {
      DigitsValueOfNatText(n / 10);
      var s := NatText(n);
      assert s[..|s| - 1] == NatText(n / 10);
    }
  }

  lemma {:induction false} NatTextHasNoSpaceOrSign(n: nat)
    ensures SkipSpaces(NatText(n)) == NatText(n)
    ensures NatText(n)[0] != '-' && NatText(n)[0] != '+'
  {
    var s := NatText(n);
    assert IsDigit(s[0]);
    assert !IsSpace(s[0]);
  }

  /** Re-parsing the rendered text of any integer gives the integer back. */
  lemma {:induction false} LeadingNumberOfIntText(i: int)
    ensures LeadingNumber(IntText(i)) == i
  {
    var n: nat := if i < 0 then -i else i;
    var digits := NatText(n);
    LeadingDigitsOfDigits(digits);
    DigitsValueOfNatText(n);
    if i < 0 {
      NegativeTextParts(n);
    } else {
      NatTextHasNoSpaceOrSign(n);
    }
  }

  /** The text of a negative number is a `-` that no white space precedes,
      then the digits of its magnitude. */
  lemma NegativeTextParts(n: nat)
    ensures SkipSpaces("-" + NatText(n)) == "-" + NatText(n)
    ensures ("-" + NatText(n))[1..] == NatText(n)
  {
    assert ("-" + NatText(n))[0] == '-';
  }

  /** Different numbers have different decimal texts. */
  lemma IntTextInjective(a: int, b: int)
    requires IntText(a) == IntText(b)
    ensures a == b
  {
    LeadingNumberOfIntText(a);
    LeadingNumberOfIntText(b);
  }

  /** `toInt()` of the decimal text of any number a `long` holds is that number. */
  lemma ReadLongOfIntText(width: LongWidth, i: int)
    requires LongMin(width) <= i <= LongMax(width)
    ensures ReadLong(width, IntText(i)) == i
  {
    LeadingNumberOfIntText(i);
  }

  /** Text with no digit in it parses to 0: the fallback for unparsable input. */
  lemma {:induction false} LeadingNumberWithoutDigits(s: string)
    requires forall i :: 0 <= i < |s| ==> !IsDigit(s[i])
    ensures LeadingNumber(s) == 0
  {
    var t := SkipSpaces(s);
    var d := |s| - |t|;
    if |t| > 0 {
      assert t[0] == s[d];
      assert LeadingDigits(t) == [];
    }
    if |t| > 1 {
      assert t[1..][0] == t[1] == s[d + 1];
      assert LeadingDigits(t[1..]) == [];
    }
  }

  lemma NoDigitsParsesToZero(s: string)
    requires forall i :: 0 <= i < |s| ==> !IsDigit(s[i])
    ensures ReadLong(Long32, s) == 0 && ReadLong(Long64, s) == 0
  {
    LeadingNumberWithoutDigits(s);
  }

  // ---------------------------------------------------------------------------
  // A String passed by pointer, which the callee may overwrite
  // ---------------------------------------------------------------------------

  class StringRef {
    var text: string

    constructor (text: string)
      ensures this.text == text
    {
      this.text := text;
    }
  }
}

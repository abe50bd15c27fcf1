/** `to_string` and `to_int` on 64-bit integers. */
module Numbers {
  import opened Arith

  const INT64_MIN: int := -0x8000_0000_0000_0000
  const INT64_MAX: int := 0x7FFF_FFFF_FFFF_FFFF

  /** The `int64_t` with the bits of an unsigned 64-bit value. */
  function AsSigned(u: nat): int
    requires u < TWO_64
  {
    if u < TWO_63 then u else u - TWO_64
  }

  /** A C string ends at its first NUL. */
  function CutAtNul(s: string): string {
    if s == [] || s[0] == '\0' then [] else [s[0]] + CutAtNul(s[1..])
  }

  lemma {:induction false} NothingCut(s: string)
    requires '\0' !in s
    ensures CutAtNul(s) == s
  {
    if s != [] {
      NothingCut(s[1..]);
    }
  }

  // ----- to_string -----

  /** A digit of a number in a `uint8_t` base. */
  type Digit = d: nat | d < 256

  /** The character written for one digit: 'a' + (d - 10), truncated to a `char`. */
  function DigitChar(d: Digit): char {
    if d < 10 then (d + 48) as char else ((97 + d - 10) % 256) as char
  }

  /** The digits of a value, most significant first; none for 0. */
  function Digits(v: nat, base: nat): (ds: seq<Digit>)
    requires 2 <= base < 256
    ensures forall d :: d in ds ==> d < base
    ensures v > 0 ==> ds != []
  {
    if v == 0 then [] else Digits(v / base, base) + [v % base]
  }

  function Chars(ds: seq<Digit>): (s: string)
    ensures |s| == |ds| && forall i :: 0 <= i < |ds| ==> s[i] == DigitChar(ds[i])
  {
    seq(|ds|, i requires 0 <= i < |ds| => DigitChar(ds[i]))
  }

  /** `to_string(uint64_t, uint8_t)` */
  function ToString(v: nat, base: nat): string
    requires base < 256
  {
    if v == 0 || base == 0 || base == 1 then "0" else CutAtNul(Chars(Digits(v, base)))
  }

  /** `to_string(int64_t, uint8_t)`; the minimum is excluded because its negation overflows. */
  function ToStringSigned(v: int, base: nat): string
    requires INT64_MIN < v <= INT64_MAX && base < 256
  {
    if v >= 0 then ToString(v, base) else "-" + ToString(-v, base)
  }

  // ----- to_int -----

  /** `digit_value` */
  function DigitValue(c: char): nat {
    if '0' <= c <= '9' then c as int - 48
    else if 'A' <= c <= 'Z' then c as int + 32 - 97 + 10
    else if 'a' <= c <= 'z' then c as int - 97 + 10
    else 0
  }

  /** The accumulating loop, on 64-bit unsigned arithmetic. */
  function Accumulate(text: string, base: nat): (r: nat)
    ensures r < TWO_64
  {
    if text == [] then 0
    else (Accumulate(text[..|text| - 1], base) * base + DigitValue(text[|text| - 1])) % TWO_64
  }

  /** `to_int` */
  function ToInt(text: string, base: nat): int {
    if text == [] then 0
    else if text[0] == '-' then AsSigned((TWO_64 - Accumulate(text[1..], base)) % TWO_64)
    else AsSigned(Accumulate(text, base))
  }

  method ToIntLoop(text: string, base: nat) returns (value: int)
    ensures value == ToInt(text, base)
  {
    if text == [] {
      return 0;
    }
    var isNegative, numberStartAtIdx := false, 0;
    if text[0] == '-' {
      isNegative, numberStartAtIdx := true, 1;
    }
    var result := 0;
    for i := numberStartAtIdx to |text|
      invariant result == Accumulate(text[numberStartAtIdx..i], base)
    {
      assert text[numberStartAtIdx..i + 1][..i - numberStartAtIdx] == text[numberStartAtIdx..i];
      result := (result * base + DigitValue(text[i])) % TWO_64;
    }
    assert text[0..|text|] == text && text[1..|text|] == text[1..];
    value := if isNegative then AsSigned((TWO_64 - result) % TWO_64) else AsSigned(result);
  }

  // ----- the loops of to_string -----

  function Reverse(s: string): string {
    if s == [] then [] else Reverse(s[1..]) + [s[0]]
  }

  lemma {:induction false} ReverseSnoc(s: string, c: char)
    ensures Reverse(s + [c]) == [c] + Reverse(s)
  {
    if s != [] {
      assert (s + [c])[1..] == s[1..] + [c];
      ReverseSnoc(s[1..], c);
    }
  }

  lemma {:induction false} ReverseAt(s: string, k: nat)
    requires k < |s|
    ensures |Reverse(s)| == |s| && Reverse(s)[k] == s[|s| - 1 - k]
  {
    if |s| > 1 {
      ReverseAt(s[1..], if k < |s| - 1 then k else 0);
    }
  }

  lemma CharsSnoc(ds: seq<Digit>, d: Digit)
    ensures Chars(ds + [d]) == Chars(ds) + [DigitChar(d)]
  {
  }

  lemma OneDigitLess(c: nat, base: nat)
    requires c > 0 && 2 <= base < 256
    ensures c / base < c && |Digits(c, base)| == |Digits(c / base, base)| + 1
  {
    hide Digits;
    Smaller(c, base);
    DigitsUnfold(c, base);
  }

  lemma DigitsStep(c: nat, base: nat)
    requires c > 0 && 2 <= base < 256
    ensures c / base < c && |Digits(c, base)| == |Digits(c / base, base)| + 1
    ensures Chars(Digits(c, base)) == Chars(Digits(c / base, base)) + [DigitChar(c % base)]
  {
    hide Digits, Chars, DigitChar;
    Smaller(c, base);
    DigitsUnfold(c, base);
    CharsSnoc(Digits(c / base, base), c % base);
  }

  lemma Smaller(c: nat, base: nat)
    requires c > 0 && base >= 2
    ensures c / base < c && c % base < base
  {
    var q := c / base;
    DivMod(c, base);
    Monotone(2, base, q);
  }

  lemma DigitsUnfold(c: nat, base: nat)
    requires c > 0 && 2 <= base < 256
    ensures Digits(c, base) == Digits(c / base, base) + [c % base]
  {
  }

  /** The first loop of `to_string` counts the digits. */
  method CountDigits(inputValue: nat, base: nat) returns (strLength: nat)
    requires 2 <= base < 256
    ensures strLength == |Digits(inputValue, base)|
  {
    hide Digits, Chars;
    var calcValue: nat := inputValue;
    strLength := 0;
    while calcValue != 0
      invariant |Digits(calcValue, base)| + strLength == |Digits(inputValue, base)|
      decreases calcValue
    {
      OneDigitLess(calcValue, base);
      calcValue := calcValue / base;
      strLength := strLength + 1;
    }
    NoDigits(base);
  }

  lemma NoDigits(base: nat)
    requires 2 <= base < 256
    ensures Digits(0, base) == [] && Chars(Digits(0, base)) == []
  {
  }

  /** The second loop writes the digits from the low end. */
  method ComposeDigits(inputValue: nat, base: nat, composedString: array<char>)
    requires 2 <= base < 256 && |Digits(inputValue, base)| < composedString.Length
    modifies composedString
    ensures Chars(Digits(inputValue, base)) == Reverse(composedString[..|Digits(inputValue, base)|])
  {
    hide Digits, Chars, Reverse;
    ghost var all := Chars(Digits(inputValue, base));
    var strLength: nat, calcValue: nat := 0, inputValue;
    ReverseNothing();
    assert all + [] == all && composedString[..0] == [];
    while calcValue != 0
      invariant |Digits(calcValue, base)| + strLength == |Digits(inputValue, base)|
      invariant all == Chars(Digits(calcValue, base)) + Reverse(composedString[..strLength])
      decreases calcValue
    {
      ghost var low, rest := composedString[..strLength], Chars(Digits(calcValue / base, base));
      DigitsStep(calcValue, base);
      var c := DigitChar(calcValue % base);
      composedString[strLength] := c;
      assert composedString[..strLength + 1] == low + [c];
      ReverseSnoc(low, c);
      assert rest + [c] + Reverse(low) == rest + ([c] + Reverse(low));
      calcValue := calcValue / base;
      strLength := strLength + 1;
    }
    NoDigits(base);
    assert [] + Reverse(composedString[..strLength]) == Reverse(composedString[..strLength]);
  }

  lemma ReverseNothing()
    ensures Reverse([]) == []
  {
  }

  /** The digits are written from the low end into one buffer and copied back in reverse into another. */
  method ToStringLoop(inputValue: nat, base: nat) returns (returnString: array<char>)
    requires inputValue > 0 && 2 <= base < 256
    ensures var cs := Chars(Digits(inputValue, base));
            returnString.Length == |cs| + 1 && returnString[..|cs|] == cs && returnString[|cs|] == '\0'
  {
    hide Digits, Reverse;
    var strLength := CountDigits(inputValue, base);
    var composedString := new char[strLength + 1](_ => '\0');
    returnString := new char[strLength + 1](_ => '\0');
    ComposeDigits(inputValue, base, composedString);
    ghost var low := composedString[..strLength];
    for counter := 0 to strLength
      invariant returnString[strLength] == '\0' && composedString[..strLength] == low
      invariant forall k :: 0 <= k < counter ==> returnString[k] == low[strLength - 1 - k]
    {
      assert low[strLength - 1 - counter] == composedString[strLength - 1 - counter];
      returnString[counter] := composedString[strLength - 1 - counter];
    }
    forall k | 0 <= k < strLength
      ensures returnString[k] == Reverse(low)[k]
    {
      ReverseAt(low, k);
    }
  }

  // ----- the round trip -----

  lemma DigitRoundTrip(d: nat)
    requires d < 36
    ensures DigitValue(DigitChar(d)) == d && DigitChar(d) != '\0' && DigitChar(d) != '-'
  {
  }

  lemma {:induction false} AccumulateDigits(v: nat, base: nat)
    requires 2 <= base <= 36 && v < TWO_64
    ensures Accumulate(Chars(Digits(v, base)), base) == v
  {
    hide Digits, Chars, DigitChar, DigitValue, Accumulate;
    if v > 0 {
      var q, r := v / base, v % base;
      Smaller(v, base);
      AccumulateDigits(q, base);
      DigitRoundTrip(r);
      DivMod(v, base);
      DigitsStep(v, base);
      AccumulateStep(Chars(Digits(q, base)), DigitChar(r), base, q, r, v);
    } else {
      NoDigits(base);
      AccumulateNothing(base);
    }
  }

  lemma AccumulateNothing(base: nat)
    ensures Accumulate([], base) == 0
  {
  }

  lemma AccumulateStep(s: string, c: char, base: nat, q: nat, r: nat, v: nat)
    requires Accumulate(s, base) == q && DigitValue(c) == r && q * base + r == v < TWO_64
    ensures Accumulate(s + [c], base) == v
  {
    AccumulateSnoc(s, c, base);
  }

  lemma DivMod(v: nat, base: nat)
    requires base > 0
    ensures v / base * base + v % base == v
  {
  }

  lemma AccumulateSnoc(s: string, c: char, base: nat)
    ensures Accumulate(s + [c], base) == (Accumulate(s, base) * base + DigitValue(c)) % TWO_64
  {
    assert (s + [c])[..|s|] == s;
  }

  lemma PlainDigits(v: nat, base: nat)
    requires 2 <= base <= 36
    ensures ToString(v, base) != [] && ToString(v, base)[0] != '-'
    ensures v > 0 ==> ToString(v, base) == Chars(Digits(v, base))
  {
    if v > 0 {
      var ds := Digits(v, base);
      var s := Chars(ds);
      forall i | 0 <= i < |s|
        ensures s[i] != '\0' && s[i] != '-'
      {
        assert ds[i] in ds;
        DigitRoundTrip(ds[i]);
      }
      NothingCut(s);
    }
  }

  /** Parsing the printed digits gives every unsigned 64-bit value back, modulo 2^64. */
  lemma UnsignedRoundTrip(v: nat, base: nat)
    requires v < TWO_64 && 2 <= base <= 36
    ensures ToInt(ToString(v, base), base) == AsSigned(v)
  {
    PlainDigits(v, base);
    AccumulateDigits(v, base);
    OneChar('0', base);
    hide Accumulate, Digits, CutAtNul;
  }

  /** Through the sign branch, every signed 64-bit value above the minimum comes back. */
  lemma SignedRoundTrip(v: int, base: nat)
    requires INT64_MIN < v <= INT64_MAX && 2 <= base <= 36
    ensures ToInt(ToStringSigned(v, base), base) == v
  {
    hide Accumulate, Digits, CutAtNul, ToString, ToInt, Chars;
    if v >= 0 {
      UnsignedRoundTrip(v, base);
    } else {
      PlainDigits(-v, base);
      AccumulateDigits(-v, base);
      MinusRead(ToString(-v, base), base, -v);
    }
  }

  lemma MinusRead(digits: string, base: nat, u: int)
    requires Accumulate(digits, base) == u && 0 < u <= INT64_MAX
    ensures ToInt("-" + digits, base) == -u
  {
    hide Accumulate, AsSigned;
    NegatedBits(u);
    assert ("-" + digits)[1..] == digits;
  }

  lemma NegatedBits(u: int)
    requires 0 < u <= INT64_MAX
    ensures AsSigned((TWO_64 - u) % TWO_64) == -u
  {
  }

  // ----- what the digits mean -----

  const LOWER := "0123456789abcdefghijklmnopqrstuvwxyz"
  const UPPER := "0123456789ABCDEFGHIJKLMNOPQRSTUVWXYZ"

  lemma Alphabets(d: nat)
    requires d < 36
    ensures LOWER[d] as int == if d < 10 then d + 48 else d - 10 + 97
    ensures UPPER[d] as int == if d < 10 then d + 48 else d - 10 + 65
  {
  }

  lemma InLower(d: nat, c: char)
    requires d < 36 && c as int == if d < 10 then d + 48 else d - 10 + 97
    ensures c in LOWER
  {
    Alphabets(d);
    assert LOWER[d] == c;
  }

  lemma InUpper(d: nat, c: char)
    requires d < 36 && c as int == if d < 10 then d + 48 else d - 10 + 65
    ensures c in UPPER
  {
    Alphabets(d);
    assert UPPER[d] == c;
  }

  /** The digits are 0 to 9 and the letters in order, read in either case. */
  lemma DigitAlphabet(d: nat)
    requires d < 36
    ensures DigitChar(d) == LOWER[d] && DigitValue(LOWER[d]) == d && DigitValue(UPPER[d]) == d
  {
    Alphabets(d);
    OneLetter(d, LOWER[d], UPPER[d]);
    hide DigitChar, DigitValue;
  }

  lemma OneLetter(d: nat, lower: char, upper: char)
    requires d < 36 && lower as int == (if d < 10 then d + 48 else d - 10 + 97)
    requires upper as int == if d < 10 then d + 48 else d - 10 + 65
    ensures DigitChar(d) == lower && DigitValue(lower) == d && DigitValue(upper) == d
  {
  }

  /** Every other character counts as 0. */
  lemma OtherCharacter(c: char)
    requires c !in LOWER && c !in UPPER
    ensures DigitValue(c) == 0
  {
    if '0' <= c <= '9' {
      InLower(c as int - 48, c);
    } else if 'a' <= c <= 'z' {
      InLower(c as int - 97 + 10, c);
    } else if 'A' <= c <= 'Z' {
      InUpper(c as int - 65 + 10, c);
    }
  }

  /** Beyond the letters, too, each digit is written as the character behind that of the one before, modulo 256. */
  lemma DigitsInOrder(d: nat)
    requires 10 <= d < 255
    ensures DigitChar(d + 1) as int == (DigitChar(d) as int + 1) % 256
  {
  }

  /** Read as a C string, a text ends before its first NUL. */
  lemma {:induction false} CutIsPrefix(s: string)
    ensures var r := CutAtNul(s);
            |r| <= |s| && r == s[..|r|] && '\0' !in r && (|r| < |s| ==> s[|r|] == '\0')
  {
    if s != [] {
      CutIsPrefix(s[1..]);
    }
  }

  function Power(base: nat, n: nat): nat {
    if n == 0 then 1 else base * Power(base, n - 1)
  }

  /** The number with these digits, the most significant one first. */
  function Value(ds: seq<nat>, base: nat): nat {
    if ds == [] then 0 else ds[0] * Power(base, |ds| - 1) + Value(ds[1..], base)
  }

  lemma {:induction false} ValueSnoc(ds: seq<nat>, d: nat, base: nat)
    ensures Value(ds + [d], base) == Value(ds, base) * base + d
    decreases |ds|
  {
    if ds == [] {
      assert [d][1..] == [] && ds + [d] == [d];
      assert Power(base, 0) == 1;
    } else {
      assert (ds + [d])[1..] == ds[1..] + [d];
      ValueSnoc(ds[1..], d, base);
      OneMoreWeight(ds[0], Power(base, |ds| - 1), Value(ds[1..], base), base, d);
    }
  }

  lemma OneMoreWeight(a: nat, w: nat, rest: nat, base: nat, d: nat)
    ensures a * (base * w) + (rest * base + d) == (a * w + rest) * base + d
  {
    assert a * (base * w) == a * w * base;
    assert (a * w + rest) * base == a * w * base + rest * base;
  }

  /** The digits of a number above 0 have its value, and the first one is not 0; no other digits of the base do. */
  lemma {:induction false} DigitsMeanValue(v: nat, base: nat)
    requires 2 <= base < 256
    ensures Value(Digits(v, base), base) == v
    ensures v > 0 ==> Digits(v, base)[0] != 0
    decreases v
  {
    if v > 0 {
      Smaller(v, base);
      DigitsMeanValue(v / base, base);
      DigitsUnfold(v, base);
      DivMod(v, base);
      hide Digits;
      ValueSnoc(Digits(v / base, base), v % base, base);
      if v / base == 0 {
        NoDigits(base);
        assert v % base == v;
      }
    }
  }

  lemma {:induction false} DigitsAreUnique(ds: seq<Digit>, base: nat)
    requires 2 <= base < 256 && (forall d :: d in ds ==> d < base) && (ds != [] ==> ds[0] != 0)
    ensures Digits(Value(ds, base), base) == ds
    decreases |ds|
  {
    if ds == [] {
      NoDigits(base);
    } else {
      var n := |ds| - 1;
      var front, d := ds[..n], ds[n];
      assert ds == front + [d];
      ValueSnoc(front, d, base);
      assert d in ds;
      forall x | x in front
        ensures x < base
      {
        assert x in ds;
      }
      DigitsAreUnique(front, base);
      hide Digits;
      var q := Value(front, base);
      QuotientAndRest(q, d, base);
      if n == 0 {
        assert q == 0;
      } else if q == 0 {
        NoDigits(base);
      }
      DigitsUnfold(q * base + d, base);
    }
  }

  lemma QuotientAndRest(q: nat, d: nat, base: nat)
    requires d < base
    ensures (q * base + d) / base == q && (q * base + d) % base == d
    ensures q > 0 || d > 0 ==> q * base + d > 0
  {
    DivMod(q * base + d, base);
    var x := (q * base + d) / base;
    if x > q {
      Monotone(q + 1, x, base);
    } else if x < q {
      Monotone(x + 1, q, base);
    }
  }

  function ValuesOf(text: string): (ds: seq<nat>)
    ensures |ds| == |text| && forall i :: 0 <= i < |text| ==> ds[i] == DigitValue(text[i])
  {
    seq(|text|, i requires 0 <= i < |text| => DigitValue(text[i]))
  }

  lemma {:induction false} AccumulateIsValue(text: string, base: nat)
    ensures Accumulate(text, base) == Value(ValuesOf(text), base) % TWO_64
    decreases |text|
  {
    if text != [] {
      var n := |text| - 1;
      AccumulateIsValue(text[..n], base);
      assert ValuesOf(text) == ValuesOf(text[..n]) + [DigitValue(text[n])];
      ValueSnoc(ValuesOf(text[..n]), DigitValue(text[n]), base);
      WrappedStep(Value(ValuesOf(text[..n]), base), base, DigitValue(text[n]));
    }
  }

  /** Wrapping each step wraps the result. */
  lemma WrappedStep(x: nat, base: nat, d: nat)
    ensures (x % TWO_64 * base + d) % TWO_64 == (x * base + d) % TWO_64
  {
    var q := x / TWO_64;
    assert x == q * TWO_64 + x % TWO_64;
    assert x * base + d == (x % TWO_64 * base + d) + q * base * TWO_64 by {
      assert q * TWO_64 * base == q * base * TWO_64;
    }
    Shifted(x % TWO_64 * base + d, q * base);
  }

  lemma Shifted(x: nat, q: nat)
    ensures (x + q * TWO_64) % TWO_64 == x % TWO_64
  {
  }

  /**
   * `to_int` reads the digits, the most significant one first, behind an optional minus sign: its result is the signed
   * 64-bit number that differs from their value, or from its negation, by a multiple of 2^64.
   */
  lemma ToIntMeans(text: string, base: nat)
    ensures INT64_MIN <= ToInt(text, base) <= INT64_MAX
    ensures (text == [] || text[0] != '-') ==> (ToInt(text, base) - Value(ValuesOf(text), base)) % TWO_64 == 0
    ensures text != [] && text[0] == '-' ==> (ToInt(text, base) + Value(ValuesOf(text[1..]), base)) % TWO_64 == 0
  {
    AccumulateIsValue(text, base);
    if text != [] && text[0] == '-' {
      AccumulateIsValue(text[1..], base);
      hide Accumulate, Value;
      NegatedWrap(Value(ValuesOf(text[1..]), base));
    } else {
      hide Accumulate, Value;
      SignedWrap(Value(ValuesOf(text), base));
      assert text == [] ==> Accumulate(text, base) == 0;
    }
  }

  lemma SignedWrap(v: nat)
    ensures INT64_MIN <= AsSigned(v % TWO_64) <= INT64_MAX && (AsSigned(v % TWO_64) - v) % TWO_64 == 0
  {
  }

  lemma NegatedWrap(v: nat)
    ensures var r := AsSigned((TWO_64 - v % TWO_64) % TWO_64);
            INT64_MIN <= r <= INT64_MAX && (r + v) % TWO_64 == 0
  {
  }

  /** `to_string` writes 0 as "0", and any other number as its digits up to the base 36. */
  lemma ToStringMeans(v: nat, base: nat)
    requires base < 256
    ensures v == 0 || base < 2 ==> ToString(v, base) == "0"
    ensures v > 0 && 2 <= base <= 36 ==>
              var s := ToString(v, base);
              && s != [] && s[0] != '0' && Value(ValuesOf(s), base) == v
              && forall i :: 0 <= i < |s| ==> s[i] in LOWER && DigitValue(s[i]) < base
  {
    if v > 0 && 2 <= base <= 36 {
      PlainDigits(v, base);
      DigitsMeanValue(v, base);
      var s, ds := ToString(v, base), Digits(v, base);
      hide Digits, Value, ToString;
      forall i | 0 <= i < |s|
        ensures s[i] in LOWER && DigitValue(s[i]) == ds[i] < base
      {
        assert ds[i] in ds;
        DigitAlphabet(ds[i]);
      }
      assert ValuesOf(s) == ds;
    }
  }

  ghost predicate RoundTrips(base: nat)
    requires base < 256
  {
    forall v: nat :: v < TWO_64 ==> ToInt(ToString(v, base), base) == AsSigned(v)
  }

  /** All values come back exactly for the bases from 2 to 36: beyond, some digits are not letters. */
  lemma RoundTripsIff(base: nat)
    requires base < 256
    ensures RoundTrips(base) <==> 2 <= base <= 36
  {
    if 2 <= base <= 36 {
      forall v: nat | v < TWO_64
        ensures ToInt(ToString(v, base), base) == AsSigned(v)
      {
        UnsignedRoundTrip(v, base);
      }
    } else if base < 2 {
      OneChar('0', base);
      hide Accumulate;
      assert ToInt(ToString(1, base), base) != AsSigned(1);
    } else {
      BraceDigit(base);
      OneChar('{', base);
      hide Accumulate, ToString;
      assert ToInt(ToString(36, base), base) != AsSigned(36);
    }
  }

  /** The digit 36 is written as the character behind 'z'. */
  lemma BraceDigit(base: nat)
    requires 36 < base < 256
    ensures ToString(36, base) == "{"
  {
    assert 36 / base == 0 && 36 % base == 36;
    assert Digits(0, base) == [];
    assert Digits(36, base) == [36];
    assert Chars([36]) == "{";
    NothingCut("{");
  }

  lemma OneChar(c: char, base: nat)
    ensures Accumulate([c], base) == DigitValue(c) % TWO_64
  {
    assert [c][..0] == [];
    assert Accumulate([], base) == 0;
  }
}

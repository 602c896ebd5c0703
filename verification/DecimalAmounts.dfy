/**
 Decimal strings and scaled integers: the API builder's `toI128` and `fromI128`, and the browser
 gates' `toScaled` (`toStroops` is `toScaled` at seven decimals).
 */
module DecimalAmounts {
  import opened Wrappers
  import opened Text

  function DigitValue(c: char): nat
    requires IsDigit(c)
  {
    c as int - '0' as int
  }

  function DigitChar(d: nat): (c: char)
    requires d < 10
    ensures IsDigit(c) && DigitValue(c) == d
  {
    (d + '0' as int) as char
  }

  function Pow10(k: nat): (p: nat)
    ensures p > 0
  {
    if k == 0 then 1 else 10 * Pow10(k - 1)
  }

  /** The number a digit string names; 0 for the empty one, as BigInt('') is 0. */
  function NatOf(s: string): nat
    requires AllDigits(s)
  {
    if s == [] then 0 else 10 * NatOf(s[..|s| - 1]) + DigitValue(s[|s| - 1])
  }

  /** The decimal digits of a number, without leading zeros. */
  function DigitsOf(n: nat): (s: string)
    ensures s != [] && AllDigits(s) && NatOf(s) == n
  {
    if n < 10 then
      assert [DigitChar(n)][..0] == [];
      [DigitChar(n)]
    else
      var init := DigitsOf(n / 10);
      var s := init + [DigitChar(n % 10)];
      assert s[..|s| - 1] == init;
      s
  }

  function Zeros(k: nat): (s: string)
    ensures |s| == k && AllDigits(s)
  {
    if k == 0 then "" else Zeros(k - 1) + "0"
  }

  function PadEnd(s: string, k: nat): (r: string)
    ensures AllDigits(s) ==> AllDigits(r)
  {
    if |s| >= k then s else s + Zeros(k - |s|)
  }

  function PadStart(s: string, k: nat): (r: string)
    ensures AllDigits(s) ==> AllDigits(r)
  {
    if |s| >= k then s else Zeros(k - |s|) + s
  }

  lemma {:induction false} NatOfConcat(a: string, b: string)
    requires AllDigits(a) && AllDigits(b)
    ensures NatOf(a + b) == NatOf(a) * Pow10(|b|) + NatOf(b)
  {
    hide IsDigit, DigitValue;
    if b == [] {
      assert a + b == a;
    } else {
      var n := |b| - 1;
      var init := b[..n];
      assert (a + b)[..|a + b| - 1] == a + init && (a + b)[|a + b| - 1] == b[n];
      NatOfConcat(a, init);
      ShiftedSum(NatOf(a), Pow10(n), NatOf(init));
    }
  }

  lemma ShiftedSum(x: nat, p: nat, y: nat)
    ensures 10 * (x * p + y) == x * (10 * p) + 10 * y
  {
  }

  lemma {:induction false} NatOfZeros(k: nat)
    ensures NatOf(Zeros(k)) == 0
  {
    if k > 0 {
      assert Zeros(k)[..k - 1] == Zeros(k - 1);
      NatOfZeros(k - 1);
    }
  }

  lemma {:induction false} NatOfBound(s: string)
    requires AllDigits(s)
    ensures NatOf(s) < Pow10(|s|)
  {
    if s != [] { NatOfBound(s[..|s| - 1]); }
  }

  lemma {:induction false} DigitsAreShort(n: nat, k: nat)
    requires n < Pow10(k) && k > 0
    ensures |DigitsOf(n)| <= k
  {
    if n >= 10 {
      assert k > 1 by { assert Pow10(1) == 10 * Pow10(0); }
      DigitsAreShort(n / 10, k - 1);
    }
  }

  // ---- Splitting at the decimal point ----

  /** s.split('.')[0] */
  function IntPart(s: string): string {
    s[..DotIndex(s)]
  }

  /** s.split('.')[1], or '' without a point. */
  function FracPart(s: string): string {
    var i := DotIndex(s);
    if i == |s| then "" else IntPart(s[i + 1..])
  }

  lemma {:induction false} NoDotInDigits(s: string)
    requires AllDigits(s)
    ensures DotIndex(s) == |s|
  {
    if s != [] { NoDotInDigits(s[1..]); }
  }

  lemma {:induction false} DotAfterDigits(a: string, rest: string)
    requires AllDigits(a)
    ensures DotIndex(a + "." + rest) == |a|
  {
    if a != [] {
      assert (a + "." + rest)[1..] == a[1..] + "." + rest;
      DotAfterDigits(a[1..], rest);
    }
  }

  lemma DecimalParts(s: string)
    requires IsDecimal(s)
    ensures AllDigits(IntPart(s)) && IntPart(s) != [] && AllDigits(FracPart(s))
    ensures IsTrimmed(s)
  {
    var i := DotIndex(s);
    if i < |s| {
      NoDotInDigits(s[i + 1..]);
      assert FracPart(s) == s[i + 1..];
      DigitIsNoSpace(s[i + 1..][|s| - i - 2]);
    } else {
      assert s[..i] == s;
      DigitIsNoSpace(s[|s| - 1]);
    }
    assert s[0] == s[..i][0];
    DigitIsNoSpace(s[0]);
  }

  lemma DigitIsNoSpace(c: char)
    ensures IsDigit(c) || c == '-' || c == '.' ==> !IsSpace(c)
  {
  }

  // ---- The two parsers ----

  function Scaled(whole: string, frac: string, decimals: nat): nat
    requires AllDigits(whole) && AllDigits(frac)
  {
    NatOf(whole) * Pow10(decimals) + NatOf(PadEnd(frac, decimals))
  }

  /** toScaled: None for anything that is not a decimal with at most `decimals` fractional digits. */
  function ToScaled(amount: string, decimals: int): Option<nat> {
    var t := Trim(amount);
    if decimals < 0 || !IsDecimal(t) || |FracPart(t)| > decimals then None
    else
      DecimalParts(t);
      Some(Scaled(IntPart(t), FracPart(t), decimals))
  }

  function DigitIn(c: char): nat {
    if IsDigit(c) then DigitValue(c)
    else if 'a' <= c <= 'f' then c as int - 'a' as int + 10
    else if 'A' <= c <= 'F' then c as int - 'A' as int + 10
    else 16
  }

  function RadixOf(s: string, radix: nat): Option<nat> {
    if s == [] then Some(0)
    else
      var init := RadixOf(s[..|s| - 1], radix);
      if init.None? || DigitIn(s[|s| - 1]) >= radix then None else Some(radix * init.value + DigitIn(s[|s| - 1]))
  }

  /** BigInt(string): white space trimmed, '' is 0, an optional sign before decimal digits, 0x, 0o and 0b. */
  function BigIntOf(s: string): Option<int> {
    var t := Trim(s);
    if t == [] then Some(0)
    else if AllDigits(t) then Some(NatOf(t))
    else if |t| > 1 && t[0] == '-' && AllDigits(t[1..]) then Some(-(NatOf(t[1..]) as int))
    else if |t| > 1 && t[0] == '+' && AllDigits(t[1..]) then Some(NatOf(t[1..]))
    else if |t| > 2 && t[0] == '0' then
      if t[1] == 'x' || t[1] == 'X' then RadixOf(t[2..], 16)
      else if t[1] == 'o' || t[1] == 'O' then RadixOf(t[2..], 8)
      else if t[1] == 'b' || t[1] == 'B' then RadixOf(t[2..], 2)
      else None
    else None
  }

  /** toI128; `None` is a thrown SyntaxError. Beyond 22 decimals the source's 10 ** decimals is inexact. */
  function ToI128(amount: string, decimals: nat): Option<int>
    requires decimals <= 22
  {
    var whole := BigIntOf(IntPart(amount));
    var padded := PadEnd(FracPart(amount), decimals);
    var frac := BigIntOf(padded[..if decimals <= |padded| then decimals else |padded|]);
    if whole.None? || frac.None? then None else Some(whole.value * Pow10(decimals) + frac.value)
  }

  function Magnitude(v: int): nat { if v < 0 then -v else v }

  /** abs / base */
  function WholeUnits(m: nat, base: nat): nat
    requires base > 0
  {
    m / base
  }

  /** abs % base */
  function SubUnits(m: nat, base: nat): nat
    requires base > 0
  {
    m % base
  }

  lemma UnitsAddUp(m: nat, base: nat)
    requires base > 0
    ensures m == WholeUnits(m, base) * base + SubUnits(m, base) && SubUnits(m, base) < base
  {
  }

  function FromI128(value: int, decimals: nat): string {
    var base, m := Pow10(decimals), Magnitude(value);
    (if value < 0 then "-" else "") + DigitsOf(WholeUnits(m, base)) + "." +
      PadStart(DigitsOf(SubUnits(m, base)), decimals)
  }

  lemma BigIntOfDigits(s: string)
    requires AllDigits(s)
    ensures BigIntOf(s) == Some(NatOf(s))
    ensures s != [] ==> BigIntOf("-" + s) == Some(-(NatOf(s) as int))
  {
    hide IsSpace, Trim, RadixOf;
    if s == [] {
      TrimmedIsItself(s);
    } else {
      hide NatOf, IsDigit;
      DigitsAreTrimmed(s);
      var t := "-" + s;
      assert t[1..] == s && t[0] == '-';
      assert !AllDigits(t) by { DashIsNoDigit(t); }
    }
  }

  lemma DashIsNoDigit(t: string)
    requires t != [] && t[0] == '-'
    ensures !AllDigits(t)
  {
  }

  lemma DigitsAreTrimmed(s: string)
    requires AllDigits(s) && s != []
    ensures Trim(s) == s && Trim("-" + s) == "-" + s
  {
    hide IsSpace, Trim;
    var t := "-" + s;
    DigitIsNoSpace(s[0]);
    DigitIsNoSpace(s[|s| - 1]);
    DigitIsNoSpace('-');
    assert t[0] == '-' && t[|t| - 1] == s[|s| - 1];
    TrimmedIsItself(s);
    TrimmedIsItself(t);
  }

  // ---- Agreement ----

  /**
   On every string of the gates' shape the builder returns a number, and it is the gates' number
   exactly when the fraction has no more digits than the asset: the builder truncates the rest, the
   gates refuse it.
   */
  lemma ParsersAgree(s: string, decimals: nat)
    requires decimals <= 22 && IsDecimal(s)
    ensures ToI128(s, decimals).Some?
    ensures ToScaled(s, decimals).Some? <==> |FracPart(s)| <= decimals
    ensures ToScaled(s, decimals).Some? ==> ToI128(s, decimals) == ToScaled(s, decimals)
  {
    hide IsSpace, IsDigit, NatOf, Pow10, DotIndex, IntPart, FracPart, BigIntOf, Trim, IsTrimmed;
    DecimalParts(s);
    TrimmedIsItself(s);
    var padded := PadEnd(FracPart(s), decimals);
    BigIntOfDigits(IntPart(s));
    BigIntOfDigits(padded[..decimals]);
    if |FracPart(s)| <= decimals {
      assert padded[..decimals] == padded;
    }
  }

  /**
   Both readings are the digits of the amount with the point moved `decimals` places right: padded
   with zeros, and for the builder cut there.
   */
  lemma ReadingsMoveThePoint(s: string, decimals: nat)
    requires decimals <= 22 && IsDecimal(s)
    ensures var digits := IntPart(s) + PadEnd(FracPart(s), decimals)[..decimals];
            && AllDigits(digits)
            && ToI128(s, decimals) == Some(NatOf(digits))
            && (|FracPart(s)| <= decimals ==> ToScaled(s, decimals) == Some(NatOf(digits)))
  {
    hide IsSpace, IsDigit, NatOf, Pow10, DotIndex, IntPart, FracPart, BigIntOf, Trim, IsTrimmed, ToScaled;
    DecimalParts(s);
    ParsersAgree(s, decimals);
    var kept := PadEnd(FracPart(s), decimals)[..decimals];
    BigIntOfDigits(IntPart(s));
    BigIntOfDigits(kept);
    NatOfConcat(IntPart(s), kept);
  }

  // ---- Round trips ----

  lemma PaddedDigits(n: nat, decimals: nat)
    requires n < Pow10(decimals) && decimals > 0
    ensures var p := PadStart(DigitsOf(n), decimals); |p| == decimals && AllDigits(p) && NatOf(p) == n
  {
    hide NatOf, Pow10, DigitsOf, Zeros, IsDigit;
    var d := DigitsOf(n);
    DigitsAreShort(n, decimals);
    var z := Zeros(decimals - |d|);
    NatOfZeros(decimals - |d|);
    NatOfConcat(z, d);
    assert PadStart(d, decimals) == z + d;
  }

  lemma PointSplits(a: string, b: string)
    requires AllDigits(a) && AllDigits(b)
    ensures var s := a + "." + b;
            && IntPart(s) == a && FracPart(s) == b && DotIndex(s) == |a|
            && IntPart("-" + s) == "-" + a && FracPart("-" + s) == b
  {
    hide AllDigits, IsDigit;
    DotAfterDigits(a, b);
    NoDotInDigits(b);
    var s := a + "." + b;
    assert s[|a| + 1..] == b && s[..|a|] == a && b[..|b|] == b;
    var t := "-" + s;
    assert t[1..] == s;
    assert t[..|a| + 1] == "-" + a && t[|a| + 2..] == b;
  }

  lemma PointOfDigits(a: string, b: string)
    requires AllDigits(a) && AllDigits(b) && a != []
    ensures IsDecimal(a + "." + b) <==> b != []
  {
    hide AllDigits, IsDigit;
    DotAfterDigits(a, b);
    var s := a + "." + b;
    assert s[..|a|] == a && s[|a| + 1..] == b;
  }

  /** A printed amount parses back in the gates, from one decimal on. */
  lemma PrintedAmountPassesGates(v: nat, decimals: nat)
    requires decimals > 0
    ensures ToScaled(FromI128(v, decimals), decimals) == Some(v)
  {
    hide Pow10, WholeUnits, SubUnits, NatOf, DigitsOf, PadStart, IntPart, FracPart, IsDecimal, Trim, AllDigits,
         IsTrimmed;
    var base := Pow10(decimals);
    UnitsAddUp(v, base);
    var a, b := DigitsOf(WholeUnits(v, base)), PadStart(DigitsOf(SubUnits(v, base)), decimals);
    PaddedDigits(SubUnits(v, base), decimals);
    PointSplits(a, b);
    PointOfDigits(a, b);
    var s := FromI128(v, decimals);
    assert s == a + "." + b;
    DecimalParts(s);
    TrimmedIsItself(s);
  }

  lemma WholePrint(v: int)
    ensures FromI128(v, 0) == (if v < 0 then "-" else "") + (DigitsOf(Magnitude(v)) + "." + "0")
  {
    var m := Magnitude(v);
    assert DigitsOf(0) == "0" && WholeUnits(m, 1) == m && SubUnits(m, 1) == 0;
  }

  /** With no decimals the print still shows '.0', one digit more than the gates take. */
  lemma GatesRefuseWholePrints(v: nat)
    ensures ToScaled(FromI128(v, 0), 0) == None
  {
    hide Pow10, NatOf, DigitsOf, IntPart, FracPart, IsDecimal, Trim, IsTrimmed, FromI128;
    WholePrint(v);
    var a := DigitsOf(v);
    PointSplits(a, "0");
    PointOfDigits(a, "0");
    var s := a + "." + "0";
    assert FromI128(v, 0) == s;
    DecimalParts(s);
    TrimmedIsItself(s);
  }

  /** What the builder keeps of a printed fraction: its digits, or nothing when there are no decimals. */
  lemma PrintedFraction(r: nat, decimals: nat)
    requires r < Pow10(decimals)
    ensures var b := PadStart(DigitsOf(r), decimals);
            && AllDigits(b) && |PadEnd(b, decimals)| >= decimals
            && AllDigits(PadEnd(b, decimals)[..decimals]) && NatOf(PadEnd(b, decimals)[..decimals]) == r
  {
    var b := PadStart(DigitsOf(r), decimals);
    if decimals > 0 {
      PaddedDigits(r, decimals);
      assert b[..decimals] == b;
    }
  }

  lemma SubUnitsIsRemainder(m: nat, base: nat)
    requires base > 0
    ensures SubUnits(m, base) == m % base
  {
  }

  /** The integer and fraction the builder reads back, the sign on the integer only. */
  lemma PrintReadsAs(v: int, decimals: nat)
    requires decimals <= 22
    ensures var base, m := Pow10(decimals), Magnitude(v);
            var w: int := WholeUnits(m, base);
            ToI128(FromI128(v, decimals), decimals) == Some((if v < 0 then -w else w) * base + SubUnits(m, base))
  {
    hide Pow10, WholeUnits, SubUnits, NatOf, DigitsOf, PadStart, IntPart, FracPart, BigIntOf, AllDigits, PadEnd;
    var base, m := Pow10(decimals), Magnitude(v);
    UnitsAddUp(m, base);
    var w, r := WholeUnits(m, base), SubUnits(m, base);
    var a, b := DigitsOf(w), PadStart(DigitsOf(r), decimals);
    PrintedFraction(r, decimals);
    PointSplits(a, b);
    BigIntOfDigits(a);
    BigIntOfDigits(PadEnd(b, decimals)[..decimals]);
    var s := FromI128(v, decimals);
    assert s == if v < 0 then "-" + (a + "." + b) else a + "." + b;
  }

  lemma SignOnTheWholePart(v: int, w: int, base: nat, r: nat)
    requires Magnitude(v) == w * base + r
    ensures (if v < 0 then -w else w) * base + r == v <==> v >= 0 || r == 0
  {
    assert (-w) * base == -(w * base);
  }

  /**
   The builder reads its own print back exactly for non-negative amounts and whole ones: the sign of
   a negative amount reaches its integer part only.
   */
  lemma PrintedAmountReadsBack(v: int, decimals: nat)
    requires decimals <= 22
    ensures ToI128(FromI128(v, decimals), decimals) == Some(v) <==> v >= 0 || Magnitude(v) % Pow10(decimals) == 0
  {
    hide *;
    PrintReadsAs(v, decimals);
    var base, m := Pow10(decimals), Magnitude(v);
    UnitsAddUp(m, base);
    SubUnitsIsRemainder(m, base);
    SignOnTheWholePart(v, WholeUnits(m, base), base, SubUnits(m, base));
  }

  /** -1.5 prints as -1.5000000 and reads back as -1 + 0.5. */
  lemma NegativeFractionLosesItsSign()
    ensures ToI128(FromI128(-15_000_000, 7), 7) == Some(-5_000_000)
  {
    hide *;
    PrintReadsAs(-15_000_000, 7);
    TenToSeven();
    FifteenMillion();
  }

  lemma TenToSeven()
    ensures Pow10(7) == 10_000_000
  {
    assert Pow10(3) == 1000;
    assert Pow10(5) == 100_000;
  }

  lemma FifteenMillion()
    ensures Magnitude(-15_000_000) == 15_000_000
    ensures WholeUnits(15_000_000, 10_000_000) == 1 && SubUnits(15_000_000, 10_000_000) == 5_000_000
  {
  }

  /** One unit of an asset with seven decimals. */
  lemma OneUnit()
    ensures ToScaled("1", 7) == Some(10_000_000)
  {
    hide NatOf, Pow10, Trim, IsDecimal, IsTrimmed;
    OneIsDecimal();
    TrimmedIsItself("1");
    NatOfZeros(7);
    NatOfConcat("1", Zeros(7));
    assert PadEnd("", 7) == Zeros(7);
  }

  lemma OneIsDecimal()
    ensures IsDecimal("1") && IsTrimmed("1") && IntPart("1") == "1" && FracPart("1") == ""
    ensures NatOf("1") == 1 && Pow10(7) == 10_000_000
  {
    assert "1"[..1] == "1" && "1"[..0] == "";
    assert Pow10(3) == 1000;
  }

  /** One digit more than the asset has: the builder drops it, the gates refuse the amount. */
  lemma EighthDigitIsCut()
    ensures ToScaled("0.12345678", 7).None? && ToI128("0.12345678", 7) == Some(1_234_567)
  {
    hide ToScaled, ToI128, DotIndex, IntPart, FracPart, IsDecimal, NatOf, IsDigit;
    var f := "12345678";
    EightDigits();
    assert "0" + "." + f == "0.12345678";
    PointedIsDecimal("0", f);
    ParsersAgree("0.12345678", 7);
    ReadingsMoveThePoint("0.12345678", 7);
    assert PadEnd(f, 7)[..7] == "1234567";
    assert "0" + "1234567" == "01234567";
  }

  lemma PointedIsDecimal(a: string, f: string)
    requires AllDigits(a) && AllDigits(f) && a != [] && f != []
    ensures var s := a + "." + f; IsDecimal(s) && IntPart(s) == a && FracPart(s) == f
  {
    hide AllDigits, DotIndex, IntPart, FracPart;
    PointSplits(a, f);
    var s := a + "." + f;
    assert s[..|a|] == a && s[|a| + 1..] == f;
  }

  lemma EightDigits()
    ensures AllDigits("0") && AllDigits("12345678") && NatOf("01234567") == 1_234_567
  {
    assert "01234567"[..7] == "0123456" && "0123456"[..6] == "012345" && "012345"[..5] == "01234";
    assert "01234"[..4] == "0123" && "0123"[..3] == "012" && "012"[..2] == "01" && "01"[..1] == "0" && "0"[..0] == "";
  }

  /** What BigInt takes besides decimal digits: nothing, and three radixes, which take no sign. */
  lemma BigIntForms()
    ensures BigIntOf("") == Some(0) && BigIntOf("0x1f") == Some(31) && BigIntOf("0o17") == Some(15)
    ensures BigIntOf("0b11") == Some(3) && BigIntOf("0x1g").None? && BigIntOf("-0x1").None?
  {
    hide BigIntOf, RadixOf;
    InRadix();
    NothingIsZero();
    PrefixedRadix("0x1f", "1f");
    PrefixedRadix("0x1g", "1g");
    PrefixedRadix("0o17", "17");
    PrefixedRadix("0b11", "11");
    SignedRadix("-0x1");
  }

  lemma NothingIsZero()
    ensures BigIntOf("") == Some(0)
  {
    TrimmedIsItself("");
  }

  lemma PrefixedRadix(t: string, digits: string)
    requires |t| > 2 && t[2..] == digits && t[0] == '0' && !IsSpace(t[|t| - 1])
    ensures t[1] == 'x' ==> BigIntOf(t) == RadixOf(digits, 16)
    ensures t[1] == 'o' ==> BigIntOf(t) == RadixOf(digits, 8)
    ensures t[1] == 'b' ==> BigIntOf(t) == RadixOf(digits, 2)
  {
    hide RadixOf, Trim, NatOf;
    DigitIsNoSpace('0');
    TrimmedIsItself(t);
    if t[1] in {'x', 'o', 'b'} { assert !IsDigit(t[1]); }
  }

  lemma SignedRadix(t: string)
    requires |t| > 2 && t[0] == '-' && t[2] == 'x' && !IsSpace(t[|t| - 1])
    ensures BigIntOf(t).None?
  {
    hide RadixOf, Trim, NatOf;
    DigitIsNoSpace('-');
    TrimmedIsItself(t);
    assert !IsDigit(t[0]) && !IsDigit(t[1..][1]);
  }

  lemma InRadix()
    ensures RadixOf("1f", 16) == Some(31) && RadixOf("17", 8) == Some(15) && RadixOf("11", 2) == Some(3)
    ensures RadixOf("1g", 16).None?
  {
    assert "1f"[..1] == "1" && "17"[..1] == "1" && "11"[..1] == "1" && "1g"[..1] == "1" && "1"[..0] == "";
  }
}

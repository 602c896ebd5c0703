/**
 What the builder's `toI128` makes of every string the gates accept. The gates trim the whole string;
 the builder splits it first, so blanks behind the fraction take the places of its missing digits.
 */
module AmountReadings {
  import opened Wrappers
  import opened Text
  import opened DecimalAmounts

  predicate AllSpaces(s: string) {
    forall i :: 0 <= i < |s| ==> IsSpace(s[i])
  }

  predicate AllZeros(s: string) {
    forall i :: 0 <= i < |s| ==> s[i] == '0'
  }

  /** The fraction the gates see. */
  function Fraction(s: string): string {
    FracPart(Trim(s))
  }

  /**
   Nothing follows the fraction, or the fraction is as long as the asset's, or the blanks behind it
   fill it up and it is zero.
   */
  predicate ReadsAlike(s: string, decimals: nat) {
    || |FracPart(s)| == |Fraction(s)|
    || |Fraction(s)| == decimals
    || (|FracPart(s)| >= decimals && AllZeros(Fraction(s)))
  }

  // ---- Trimming, taken apart ----

  lemma {:induction false} LeadingSpaces(s: string) returns (lead: string)
    ensures s == lead + TrimStart(s) && AllSpaces(lead)
  {
    hide *;
    TrimStartOnce(s);
    if s != [] && IsSpace(s[0]) {
      var rest := LeadingSpaces(s[1..]);
      var t := TrimStart(s);
      lead := [s[0]] + rest;
      assert s == [s[0]] + s[1..];
      assert lead + t == [s[0]] + (rest + t);
      OneSpaceMore(s[0], rest);
    } else {
      lead := [];
      NoSpaces();
    }
  }

  lemma {:induction false} TrailingSpaces(s: string) returns (trail: string)
    ensures s == TrimEnd(s) + trail && AllSpaces(trail)
  {
    hide *;
    var n := |s| - 1;
    TrimEndOnce(s);
    if s != [] && IsSpace(s[n]) {
      var rest := TrailingSpaces(s[..n]);
      var t := TrimEnd(s);
      trail := rest + [s[n]];
      assert s == s[..n] + [s[n]];
      assert t + trail == (t + rest) + [s[n]];
      OneSpaceMore(s[n], rest);
    } else {
      trail := [];
      NoSpaces();
    }
  }

  lemma TrimStartOnce(s: string)
    ensures TrimStart(s) == if s != [] && IsSpace(s[0]) then TrimStart(s[1..]) else s
  {
    hide IsSpace;
  }

  lemma TrimEndOnce(s: string)
    ensures TrimEnd(s) == if s != [] && IsSpace(s[|s| - 1]) then TrimEnd(s[..|s| - 1]) else s
  {
    hide IsSpace;
  }

  lemma OneSpaceMore(c: char, rest: string)
    requires IsSpace(c) && AllSpaces(rest)
    ensures AllSpaces([c] + rest) && AllSpaces(rest + [c])
  {
    hide IsSpace;
  }

  lemma NoSpaces()
    ensures AllSpaces([])
  {
  }

  lemma TrimmedParts(s: string) returns (lead: string, trail: string)
    ensures s == lead + Trim(s) + trail && AllSpaces(lead) && AllSpaces(trail)
  {
    lead := LeadingSpaces(s);
    trail := TrailingSpaces(TrimStart(s));
    assert lead + (Trim(s) + trail) == lead + Trim(s) + trail;
  }

  lemma {:induction false} TrimStartSkips(lead: string, x: string)
    requires AllSpaces(lead) && x != [] && !IsSpace(x[0])
    ensures TrimStart(lead + x) == x
  {
    hide IsSpace;
    if lead == [] {
      assert lead + x == x;
    } else {
      assert (lead + x)[0] == lead[0] && (lead + x)[1..] == lead[1..] + x;
      TrimStartSkips(lead[1..], x);
    }
  }

  lemma {:induction false} TrimEndSkips(x: string, trail: string)
    requires AllSpaces(trail) && x != [] && !IsSpace(x[|x| - 1])
    ensures TrimEnd(x + trail) == x
  {
    hide IsSpace;
    if trail == [] {
      assert x + trail == x;
    } else {
      var n := |trail| - 1;
      var s := x + trail;
      assert s[|s| - 1] == trail[n] && s[..|s| - 1] == x + trail[..n];
      TrimEndSkips(x, trail[..n]);
    }
  }

  lemma TrimSkips(lead: string, x: string, trail: string)
    requires AllSpaces(lead) && AllSpaces(trail) && x != [] && IsTrimmed(x)
    ensures Trim(lead + x + trail) == x
  {
    hide IsSpace, TrimStart, TrimEnd;
    assert lead + x + trail == lead + (x + trail);
    assert (x + trail)[0] == x[0];
    TrimStartSkips(lead, x + trail);
    TrimEndSkips(x, trail);
  }

  /** BigInt sees through blanks around digits. */
  lemma BlanksAreIgnored(lead: string, x: string, trail: string)
    requires AllSpaces(lead) && AllSpaces(trail) && x != [] && AllDigits(x)
    ensures BigIntOf(lead + x + trail) == Some(NatOf(x))
  {
    DigitIsNoSpace(x[0]);
    DigitIsNoSpace(x[|x| - 1]);
    hide IsSpace, IsDigit, Trim, NatOf, RadixOf;
    TrimSkips(lead, x, trail);
    TrimSkips([], x, []);
    assert [] + x + [] == x;
    BigIntOfDigits(x);
  }

  /** But not through blanks between digits. */
  lemma BlanksInsideAreRefused(x: string, blanks: string, zeros: string)
    requires AllDigits(x) && x != [] && AllSpaces(blanks) && blanks != [] && AllDigits(zeros) && zeros != []
    ensures BigIntOf(x + blanks + zeros).None?
  {
    var s := x + blanks + zeros;
    var n := |x|;
    assert s[0] == x[0] && s[|s| - 1] == zeros[|zeros| - 1] && s[n] == blanks[0];
    SpaceIsNoDigit(blanks[0]);
    DigitIsNoSpace(s[0]);
    DigitIsNoSpace(s[|s| - 1]);
    assert !AllDigits(s);
    assert s[1] == if n > 1 then x[1] else blanks[0];
    assert s[1] != 'x' && s[1] != 'X' && s[1] != 'o' && s[1] != 'O' && s[1] != 'b' && s[1] != 'B';
    hide IsSpace, Trim, NatOf, RadixOf, AllDigits;
    TrimmedIsItself(s);
  }

  lemma SpaceIsNoDigit(c: char)
    ensures IsSpace(c) ==>
              && !IsDigit(c) && c != '.' && c != '-' && c != '+'
              && c != 'x' && c != 'X' && c != 'o' && c != 'O' && c != 'b' && c != 'B'
  {
  }

  // ---- Splitting the untrimmed string ----

  lemma {:induction false} DotIs(s: string, i: nat)
    requires i <= |s| && (i < |s| ==> s[i] == '.') && forall j :: 0 <= j < i ==> s[j] != '.'
    ensures DotIndex(s) == i
  {
    hide DotIndex;
  }

  lemma RawParts(lead: string, t: string, trail: string)
    requires AllSpaces(lead) && AllSpaces(trail) && IsDecimal(t)
    ensures var s := lead + t + trail;
            if DotIndex(t) < |t| then
              IntPart(s) == lead + IntPart(t) + [] && FracPart(s) == FracPart(t) + trail && FracPart(t) != []
            else IntPart(s) == lead + IntPart(t) + trail && FracPart(s) == [] && FracPart(t) == []
  {
    NoDotInSpaces(lead);
    NoDotInSpaces(trail);
    if DotIndex(t) < |t| {
      DecimalSplits(t);
      hide *;
      PointInside(lead, IntPart(t), FracPart(t), trail);
    } else {
      DecimalIsWhole(t);
      hide *;
      NoPointInside(lead, t, trail);
    }
  }

  lemma DecimalSplits(t: string)
    requires IsDecimal(t) && DotIndex(t) < |t|
    ensures t == IntPart(t) + "." + FracPart(t) && HasNoDot(IntPart(t)) && HasNoDot(FracPart(t)) && FracPart(t) != []
  {
    hide DotIndex, IsDigit, AllDigits;
    var k := DotIndex(t);
    var f := t[k + 1..];
    NoDotInDigits(f);
    NoDots(t[..k]);
    NoDots(f);
    CutAt(t, k);
    assert f[..|f|] == f;
  }

  lemma CutAt(t: string, k: nat)
    requires k < |t| && t[k] == '.'
    ensures t == t[..k] + "." + t[k + 1..]
  {
  }

  lemma DecimalIsWhole(t: string)
    requires IsDecimal(t) && DotIndex(t) == |t|
    ensures HasNoDot(t) && IntPart(t) == t && FracPart(t) == []
  {
    assert t[..|t|] == t;
    NoDots(t);
  }

  lemma PointInside(lead: string, a: string, f: string, trail: string)
    requires HasNoDot(lead) && HasNoDot(a) && HasNoDot(f) && HasNoDot(trail)
    ensures var s := lead + (a + "." + f) + trail; IntPart(s) == lead + a + [] && FracPart(s) == f + trail
  {
    NoDotsIn(lead, a);
    NoDotsIn(f, trail);
    hide *;
    PointBetween(lead + a, f + trail);
    assert lead + (a + "." + f) + trail == (lead + a) + "." + (f + trail);
    assert lead + a + [] == lead + a;
  }

  lemma NoPointInside(lead: string, t: string, trail: string)
    requires HasNoDot(lead) && HasNoDot(t) && HasNoDot(trail)
    ensures var s := lead + t + trail; IntPart(s) == s && FracPart(s) == []
  {
    var s := lead + t + trail;
    NoDotsIn(lead, t);
    NoDotsIn(lead + t, trail);
    hide DotIndex;
    DotIs(s, |s|);
    assert s[..|s|] == s;
  }

  predicate HasNoDot(s: string) {
    forall i :: 0 <= i < |s| ==> s[i] != '.'
  }

  lemma NoDots(s: string)
    requires AllDigits(s)
    ensures HasNoDot(s)
  {
    forall i | 0 <= i < |s| ensures s[i] != '.' {
      assert IsDigit(s[i]);
    }
  }

  lemma NoDotsIn(a: string, b: string)
    requires HasNoDot(a) && HasNoDot(b)
    ensures HasNoDot(a + b)
  {
  }

  lemma PointBetween(a: string, b: string)
    requires HasNoDot(a) && HasNoDot(b)
    ensures IntPart(a + "." + b) == a && FracPart(a + "." + b) == b
  {
    var s := a + "." + b;
    assert forall j :: 0 <= j < |a| ==> s[j] == a[j];
    assert s[|a|] == '.';
    hide DotIndex;
    DotIs(s, |a|);
    DotIs(b, |b|);
    assert s[|a| + 1..] == b && s[..|a|] == a && b[..|b|] == b;
  }

  lemma NoDotInSpaces(s: string)
    requires AllSpaces(s)
    ensures HasNoDot(s)
  {
  }

  // ---- The fraction the builder reads ----

  /** The characters of a fraction and what follows it that the builder keeps. */
  function Kept(raw: string, decimals: nat): string {
    PadEnd(raw, decimals)[..decimals]
  }

  lemma PadEndIsLong(raw: string, decimals: nat)
    ensures |PadEnd(raw, decimals)| >= decimals
  {
  }

  lemma KeptIsPadded(f: string, decimals: nat)
    requires |f| <= decimals
    ensures Kept(f, decimals) == f + Zeros(decimals - |f|)
  {
    hide Zeros;
    var padded := f + Zeros(decimals - |f|);
    if |f| == decimals {
      assert padded == f;
    }
    assert padded[..decimals] == padded;
  }

  lemma KeptWithoutBlanks(f: string, decimals: nat)
    requires AllDigits(f) && |f| <= decimals
    ensures AllDigits(Kept(f, decimals)) && BigIntOf(Kept(f, decimals)) == Some(NatOf(f) * Pow10(decimals - |f|))
  {
    hide NatOf, Pow10, BigIntOf, Zeros, IsDigit;
    var z := Zeros(decimals - |f|);
    KeptIsPadded(f, decimals);
    NatOfZeros(decimals - |f|);
    NatOfConcat(f, z);
    BigIntOfDigits(f + z);
  }

  lemma KeptWithBlanks(f: string, trail: string, decimals: nat)
    requires AllDigits(f) && f != [] && AllSpaces(trail) && trail != [] && |f| <= decimals
    ensures var read := BigIntOf(Kept(f + trail, decimals));
            if |f + trail| < decimals then read.None? else read == Some(NatOf(f))
  {
    var raw := f + trail;
    hide IsSpace, IsDigit, NatOf, BigIntOf, AllDigits;
    if |raw| < decimals {
      var z := Zeros(decimals - |raw|);
      assert Kept(raw, decimals) == f + trail + z;
      BlanksInsideAreRefused(f, trail, z);
    } else {
      var blanks := trail[..decimals - |f|];
      assert Kept(raw, decimals) == [] + f + blanks;
      BlanksAreIgnored([], f, blanks);
    }
  }

  lemma {:induction false} ZeroDigits(s: string)
    requires AllDigits(s)
    ensures NatOf(s) == 0 <==> AllZeros(s)
  {
    if s != [] {
      var n := |s| - 1;
      ZeroDigits(s[..n]);
      assert s == s[..n] + [s[n]];
    }
  }

  /** Moving the point changes every number but zero. */
  lemma ScalingMoves(n: nat, k: nat)
    requires k > 0
    ensures n * Pow10(k) == n <==> n == 0
  {
    var p := Pow10(k - 1);
    assert Pow10(k) == 10 * p && n * (10 * p) == 10 * (n * p);
    if n > 0 { assert n * p >= n; }
  }

  // ---- The readings ----

  /**
   Of every string the gates accept, whatever white space surrounds it, the builder reads the gates'
   number if and only if ReadsAlike; it throws exactly when blanks follow a fraction without filling
   it up, and otherwise reads the fraction as if it had all its digits.
   */
  lemma ReadingsAgreeExactly(s: string, decimals: nat)
    requires decimals <= 22 && ToScaled(s, decimals).Some?
    ensures (ToI128(s, decimals).Some? && ToI128(s, decimals).value == ToScaled(s, decimals).value)
            <==> ReadsAlike(s, decimals)
    ensures ToI128(s, decimals).None? <==> |Fraction(s)| < |FracPart(s)| < decimals
    ensures |Fraction(s)| < |FracPart(s)| && decimals <= |FracPart(s)| ==>
              && AllDigits(IntPart(Trim(s))) && AllDigits(Fraction(s))
              && ToI128(s, decimals) == Some(NatOf(IntPart(Trim(s))) * Pow10(decimals) + NatOf(Fraction(s)))
  {
    hide *;
    AcceptedParts(s, decimals);
    GateReads(s, decimals);
    BuilderReads(s, decimals);
    var f := Fraction(s);
    AlikeOrLonger(s, decimals);
    ZeroDigits(f);
    if |f| < decimals {
      ScalingMoves(NatOf(f), decimals - |f|);
    } else {
      NoScaling();
    }
  }

  lemma AlikeOrLonger(s: string, decimals: nat)
    ensures ReadsAlike(s, decimals) <==>
              || |FracPart(s)| == |Fraction(s)|
              || |Fraction(s)| == decimals
              || (|FracPart(s)| >= decimals && AllZeros(Fraction(s)))
  {
  }

  /** What BigInt makes of the two halves of an accepted string. */
  lemma AcceptedParts(s: string, decimals: nat)
    requires ToScaled(s, decimals).Some?
    ensures var whole, f, raw := IntPart(Trim(s)), Fraction(s), FracPart(s);
            && AllDigits(whole) && AllDigits(f) && |f| <= decimals && |f| <= |raw|
            && BigIntOf(IntPart(s)) == Some(NatOf(whole))
            && |PadEnd(raw, decimals)| >= decimals
            && BigIntOf(Kept(raw, decimals)) ==
               if |raw| == |f| then Some(NatOf(f) * Pow10(decimals - |f|))
               else if |raw| < decimals then None else Some(NatOf(f))
  {
    hide *;
    var t := Trim(s);
    AcceptedIsDecimal(s, decimals);
    FractionOfTrim(s);
    var lead, trail := TrimmedParts(s);
    DecimalParts(t);
    RawParts(lead, t, trail);
    WholeIsRead(lead, IntPart(t), trail, IntPart(s));
    FractionIsRead(FracPart(t), trail, FracPart(s), decimals);
  }

  lemma AcceptedIsDecimal(s: string, decimals: nat)
    requires ToScaled(s, decimals).Some?
    ensures IsDecimal(Trim(s)) && |FracPart(Trim(s))| <= decimals
  {
    hide IsDecimal, Trim, FracPart;
  }

  lemma FractionIsRead(f: string, trail: string, raw: string, decimals: nat)
    requires AllDigits(f) && AllSpaces(trail) && |f| <= decimals
    requires raw == f || (f != [] && raw == f + trail)
    ensures |f| <= |raw| && |PadEnd(raw, decimals)| >= decimals
    ensures BigIntOf(Kept(raw, decimals)) ==
            if |raw| == |f| then Some(NatOf(f) * Pow10(decimals - |f|))
            else if |raw| < decimals then None else Some(NatOf(f))
  {
    hide *;
    PadEndIsLong(raw, decimals);
    if raw == f {
      KeptWithoutBlanks(f, decimals);
    } else {
      assert f + [] == f;
      KeptWithBlanks(f, trail, decimals);
    }
  }

  lemma NoScaling()
    ensures Pow10(0) == 1
  {
  }

  lemma WholeIsRead(lead: string, whole: string, trail: string, raw: string)
    requires AllSpaces(lead) && AllSpaces(trail) && whole != [] && AllDigits(whole)
    requires raw == lead + whole + [] || raw == lead + whole + trail
    ensures BigIntOf(raw) == Some(NatOf(whole))
  {
    BlanksAreIgnored(lead, whole, []);
    BlanksAreIgnored(lead, whole, trail);
  }

  lemma GateReads(s: string, decimals: nat)
    requires ToScaled(s, decimals).Some?
    ensures var t := Trim(s);
            && |Fraction(s)| <= decimals && AllDigits(IntPart(t)) && AllDigits(Fraction(s))
            && ToScaled(s, decimals).value ==
               NatOf(IntPart(t)) * Pow10(decimals) + NatOf(Fraction(s)) * Pow10(decimals - |Fraction(s)|)
  {
    hide IsSpace, IsDigit, NatOf, Pow10, DotIndex, IntPart, FracPart, Trim, IsTrimmed, IsDecimal;
    DecimalParts(Trim(s));
    var f := FracPart(Trim(s));
    NatOfZeros(decimals - |f|);
    NatOfConcat(f, Zeros(decimals - |f|));
    assert PadEnd(f, decimals) == f + Zeros(decimals - |f|);
  }

  lemma BuilderReads(s: string, decimals: nat)
    requires decimals <= 22 && BigIntOf(IntPart(s)).Some?
    ensures |PadEnd(FracPart(s), decimals)| >= decimals
    ensures var read := BigIntOf(Kept(FracPart(s), decimals));
            ToI128(s, decimals) ==
            if read.None? then None else Some(BigIntOf(IntPart(s)).value * Pow10(decimals) + read.value)
  {
    hide BigIntOf, Pow10, IntPart, FracPart, Zeros;
    PadEndIsLong(FracPart(s), decimals);
  }

  /** Six blanks behind 1.5 make it 1.0000005 to the builder; fewer make it unreadable. */
  lemma BlanksMoveTheAmount(blanks: string)
    requires blanks != [] && AllSpaces(blanks)
    ensures ToScaled("1.5" + blanks, 7) == Some(15_000_000)
    ensures ToI128("1.5" + blanks, 7) == if |blanks| < 6 then None else Some(10_000_005)
  {
    hide *;
    var s := "1.5" + blanks;
    OnePointFive();
    FiveAndNothing();
    TrimSkips([], "1.5", blanks);
    assert [] + "1.5" + blanks == s;
    RawParts([], "1.5", blanks);
    GateTakesOnePointFive(s);
    assert |FracPart(s)| == 1 + |blanks|;
    FractionOfTrim(s);
    GateReads(s, 7);
    AlikeOrLonger(s, 7);
    ReadingsAgreeExactly(s, 7);
  }

  /** Typed as 1.5 and six blanks, the gates see 1.5 units and the builder 1.0000005. */
  lemma SixBlanks()
    ensures ToScaled("1.5      ", 7) == Some(15_000_000) && ToI128("1.5      ", 7) == Some(10_000_005)
  {
    hide *;
    SixSpaces();
    BlanksMoveTheAmount("      ");
    assert "1.5" + "      " == "1.5      ";
  }

  lemma SixSpaces()
    ensures AllSpaces("      ")
  {
  }

  lemma FiveAndNothing()
    ensures !AllZeros("5") && AllSpaces([])
  {
    assert "5"[0] == '5';
  }

  lemma FractionOfTrim(s: string)
    ensures Fraction(s) == FracPart(Trim(s))
  {
  }

  lemma OnePointFive()
    ensures IsTrimmed("1.5") && IsDecimal("1.5") && DotIndex("1.5") == 1
    ensures IntPart("1.5") == "1" && FracPart("1.5") == "5"
    ensures NatOf("1") == 1 && NatOf("5") == 5 && Pow10(7) == 10_000_000 && Pow10(6) == 1_000_000
  {
    var s := "1.5";
    DotIs(s, 1);
    DotIs("5", 1);
    assert s[..1] == "1" && s[2..] == "5" && "5"[..1] == "5" && "1"[..0] == "" && "5"[..0] == "";
    assert Pow10(6) == 1_000_000 by { assert Pow10(3) == 1000; }
  }

  lemma GateTakesOnePointFive(s: string)
    requires Trim(s) == "1.5" && IsDecimal("1.5") && FracPart("1.5") == "5"
    ensures ToScaled(s, 7).Some?
  {
  }
}

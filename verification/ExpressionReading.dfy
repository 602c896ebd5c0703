/**
 How the resolver reads text that nothing prints: white space, operands without parentheses, the rank
 of negation, numbers, and paths that are none.
 */
module ExpressionReading {
  import opened Wrappers
  import opened Text
  import opened AmountReadings
  import opened ExpressionResolver
  import opened ExpressionRoundTrip

  /** White space around an expression makes no difference, and nothing else is undefined. */
  lemma BlanksAround<V>(h: Host<V>, vals: V, lead: string, s: string, trail: string)
    requires AllSpaces(lead) && AllSpaces(trail) && s != [] && IsTrimmed(s)
    ensures ValueOf(h, vals, lead + s + trail) == ValueOf(h, vals, s)
  {
    hide IsSpace, TrimmedValue, Trim;
    TrimSkips(lead, s, trail);
    TrimmedIsItself(s);
  }

  lemma BlankIsUndefined<V>(h: Host<V>, vals: V, s: string)
    requires AllSpaces(s)
    ensures ValueOf(h, vals, s) == h.undefined
  {
    BlankTrims(s);
  }

  lemma {:induction false} BlankTrims(s: string)
    requires AllSpaces(s)
    ensures Trim(s) == []
  {
    hide IsSpace;
    if s != [] { BlankTrims(s[1..]); }
  }

  /** Identifiers begin with a letter, `$` or `_`, and go on with digits too. */
  lemma IdentifierCodes(c: char)
    ensures IsIdentStart(c) <==>
            c as int == 36 || 65 <= c as int <= 90 || c as int == 95 || 97 <= c as int <= 122
    ensures IsIdentPart(c) <==> IsIdentStart(c) || 48 <= c as int <= 57
  {
  }

  // ---- Numbers ----

  /** Digits, and maybe a point and more digits. */
  ghost predicate IsNumeral(t: string) {
    exists a, b: string :: IsNumeralOf(t, a, b)
  }

  predicate IsNumeralOf(t: string, a: string, b: string) {
    a != [] && AllDigits(a) && AllDigits(b) && t == if b == [] then a else a + "." + b
  }

  lemma NumeralExactly(t: string)
    ensures IsDecimal(t) <==> IsNumeral(t)
  {
    if IsDecimal(t) {
      var i := DotIndex(t);
      if i < |t| {
        assert t == t[..i] + "." + t[i + 1..];
        assert IsNumeralOf(t, t[..i], t[i + 1..]);
      } else {
        assert t[..i] == t;
        assert IsNumeralOf(t, t, []);
      }
    }
    if a, b: string :| IsNumeralOf(t, a, b) {
      PartsAreDecimal(a, b);
    }
  }

  lemma PartsAreDecimal(a: string, b: string)
    requires a != [] && AllDigits(a) && AllDigits(b)
    ensures IsDecimal(a) && (b != [] ==> IsDecimal(a + "." + b))
  {
    hide DotIndex;
    DotIs(a, |a|);
    assert a[..|a|] == a;
    if b != [] {
      var s := a + "." + b;
      DotIs(s, |a|);
      assert s[..|a|] == a && s[|a| + 1..] == b;
    }
  }

  /** A number is a numeral, or one behind a minus sign: nothing else. */
  lemma NumberExactly(s: string)
    ensures IsNumber(s) <==> IsNumeral(s) || (s != [] && s[0] == '-' && IsNumeral(s[1..]))
  {
    hide IsDecimal, IsNumeral;
    NumeralExactly(s);
    if s != [] { NumeralExactly(s[1..]); }
  }

  // ---- Operands without parentheses ----

  /** An operand that holds no equality of its own outside brackets, and does not end in half of one. */
  predicate IsPlainOperand(l: string) {
    forall j :: 0 <= j < |l| && Parens(l[..j]) + Squares(l[..j]) == 0 && (l[j] == '=' || l[j] == '!') ==>
      j + 1 < |l| && l[j + 1] != '='
  }

  lemma NoEqualityBefore(l: string, rest: string, j: nat)
    requires IsPlainOperand(l) && j < |l|
    ensures !EqualityAt(l + rest, j)
  {
    hide Trim, Depth;
    var s := l + rest;
    assert s[..j] == l[..j] && s[j] == l[j];
    if j + 1 < |l| { assert s[j + 1] == l[j + 1]; }
  }

  lemma NoHalfOperatorLast(l: string)
    requires WellNested(l) && IsPlainOperand(l) && l != []
    ensures l[|l| - 1] != '=' && l[|l| - 1] != '!'
  {
    var n := |l| - 1;
    assert l[..n + 1] == l;
    DepthStep('(', ')', l, n);
    DepthStep('[', ']', l, n);
  }

  /** Parentheses that open a well nested text close inside it. */
  lemma {:induction false} ClosesInside(l: string, n: nat) returns (i: nat)
    requires 1 <= n <= |l| && Parens(l[..n]) > 0 && Parens(l) == 0
    ensures i < |l| && l[i] == ')' && Parens(l[..i + 1]) == 0
    decreases |l| - n
  {
    assert l[..|l|] == l;
    DepthStep('(', ')', l, n);
    if Parens(l[..n + 1]) == 0 {
      i := n;
    } else {
      i := ClosesInside(l, n + 1);
    }
  }

  lemma OperandIsNotWrapped(l: string, rest: string)
    requires WellNested(l) && l != [] && rest != []
    ensures !Parenthesised(l + rest)
  {
    hide Depth;
    var s := l + rest;
    if l[0] == '(' {
      EmptyDepth('(', ')', l[..0]);
      DepthStep('(', ')', l, 0);
      WellNestedDepth(l);
      var i := ClosesInside(l, 1);
      assert s[..i + 1] == l[..i + 1] && s[i] == ')' && i < |s| - 1;
    } else {
      assert s[0] == l[0];
    }
  }

  /** The first equality stands right behind a plain operand. */
  lemma FoundBehindOperand(l: string, op: Op, r: string)
    requires WellNested(l) && IsPlainOperand(l) && Trim(l) != [] && (|OpText(op)| == 2 ==> r != [] && r[0] != '=')
    ensures var s := l + OpText(op) + r;
            FirstEquality(s, 0) == |l| < |s| && OperatorAt(s, |l|) == OpText(op) && !Parenthesised(s)
            && s[..|l|] == l && s[|l| + |OpText(op)|..] == r
  {
    var t := OpText(op);
    var s := l + t + r;
    OperatorLetters(op);
    hide Trim, Depth, OpText;
    OperatorAfter(l, t, r);
    assert s == l + (t + r) && s[|l| + |t|..] == r;
    assert l != [] by { TrimsToNothing(); }
    NoHalfOperatorLast(l);
    WellNestedDepth(l);
    OperandIsNotWrapped(l, t + r);
    assert EqualityAt(s, |l|);
    forall j | 0 <= j < |l| ensures !EqualityAt(s, j) {
      NoEqualityBefore(l, t + r, j);
    }
    TextOfOperator(op, s, |l|);
  }

  lemma TrimsToNothing()
    ensures Trim([]) == []
  {
  }

  lemma TextOfOperator(op: Op, s: string, k: nat)
    requires k + |OpText(op)| <= |s| && s[k..k + |OpText(op)|] == OpText(op)
    requires |OpText(op)| == 2 ==> k + 2 == |s| || s[k + 2] != '='
    ensures k + 1 < |s| && OperatorAt(s, k) == OpText(op)
  {
    var t := s[k..k + |OpText(op)|];
    assert t[0] == s[k] && t[1] == s[k + 1];
    if |t| == 3 { assert t[2] == s[k + 2]; }
  }

  /** Operands need no parentheses: an equality is read at its first operator outside brackets. */
  lemma PlainEquality<V>(h: Host<V>, vals: V, l: string, op: Op, r: string)
    requires WellNested(l) && IsPlainOperand(l) && Trim(l) != [] && (|OpText(op)| == 2 ==> r != [] && r[0] != '=')
    requires IsTrimmed(l + OpText(op) + r)
    ensures ValueOf(h, vals, l + OpText(op) + r) ==
            Compare(h, OpText(op), ValueOf(h, vals, l), ValueOf(h, vals, r))
  {
    hide Parenthesised, FirstEquality, OperatorAt, OpText, Trim, AtomValue, WellNested, IsPlainOperand;
    var s := l + OpText(op) + r;
    FoundBehindOperand(l, op, r);
    TrimmedIsItself(s);
  }

  /** Negation binds tighter than equality: it takes the left operand only. */
  lemma NegationBindsTighter<V>(h: Host<V>, vals: V, x: string, op: Op, r: string)
    requires WellNested("!" + x) && IsPlainOperand("!" + x) && x != [] && IsTrimmed("!" + x)
    requires |OpText(op)| == 2 ==> r != [] && r[0] != '='
    requires IsTrimmed("!" + x + OpText(op) + r)
    ensures ValueOf(h, vals, "!" + x + OpText(op) + r) ==
            Compare(h, OpText(op), h.bool_(!h.truthy(ValueOf(h, vals, x))), ValueOf(h, vals, r))
  {
    hide OpText, Trim, WellNested, IsPlainOperand;
    TrimmedIsItself("!" + x);
    PlainEquality(h, vals, "!" + x, op, r);
    OnlyNegated(h, vals, x);
  }

  lemma OnlyNegated<V>(h: Host<V>, vals: V, x: string)
    requires IsPlainOperand("!" + x) && IsTrimmed("!" + x)
    ensures ValueOf(h, vals, "!" + x) == h.bool_(!h.truthy(ValueOf(h, vals, x)))
  {
    hide Trim, AtomValue, EqualityAt, IsPlainOperand;
    var l := "!" + x;
    TrimmedIsItself(l);
    assert l[0] == '!' && l[1..] == x;
    forall j | 0 <= j < |l| ensures !EqualityAt(l, j) {
      NoEqualityBefore(l, "", j);
      assert l + "" == l;
    }
  }

  // ---- Paths that are none ----

  lemma NoHeadNoPath<V>(h: Host<V>, vals: V, s: string)
    requires s == [] || !IsIdentStart(s[0])
    ensures PathValue(h, vals, s) == h.undefined
  {
  }

  /** Behind a path, anything but a point or a bracket makes it undefined, and so does a point or bracket alone. */
  lemma BrokenPaths<V>(h: Host<V>, vals: V, cur: V, s: string, i: nat)
    requires i < |s|
    ensures s[i] != '.' && s[i] != '[' ==> StepsValue(h, vals, cur, s, i) == h.undefined
    ensures s[i] == '.' && (i + 1 == |s| || !(IsIdentStart(s[i + 1]) || IsDigit(s[i + 1]))) ==>
              StepsValue(h, vals, cur, s, i) == h.undefined
    ensures s[i] == '[' && (forall j :: i < j < |s| ==> s[j] != ']') ==> StepsValue(h, vals, cur, s, i) == h.undefined
  {
    hide ValueOf, Named, Keyed, Depth;
    StepsFrom(h, vals, cur, s, i);
  }

  // ---- Operators with nothing before them ----

  predicate IsLead(lead: string) {
    lead != [] && forall i :: 0 <= i < |lead| ==> lead[i] == '=' || lead[i] == '!'
  }

  lemma LeadHasNoDepth(lead: string, r: string, j: nat)
    requires IsLead(lead) && j <= |r|
    ensures Parens((lead + r)[..|lead| + j]) == Parens(r[..j]) && Squares((lead + r)[..|lead| + j]) == Squares(r[..j])
  {
    hide Depth;
    assert (lead + r)[..|lead| + j] == lead + r[..j];
    DepthsConcat(lead, r[..j]);
    FlatDepth('(', ')', lead);
    FlatDepth('[', ']', lead);
  }

  /** No equality is read in or right behind a run of equality characters at the start. */
  lemma NoEqualityBehindLead(lead: string, r: string)
    requires IsLead(lead) && IsPlainOperand(r)
    ensures FirstEquality(lead + r, 0) == |lead + r|
  {
    hide Trim, Depth, IsPlainOperand, FirstEquality;
    var s := lead + r;
    TrimsToNothing();
    assert s[..0] == [];
    forall k | 0 <= k < |s| ensures !EqualityAt(s, k) {
      if 0 < k <= |lead| {
        assert s[k - 1] == lead[k - 1];
      } else if k > |lead| {
        NoEqualityFurther(lead, r, k - |lead|);
      }
    }
    NoneMeansEnd(s);
  }

  lemma NoneMeansEnd(s: string)
    requires forall k :: 0 <= k < |s| ==> !EqualityAt(s, k)
    ensures FirstEquality(s, 0) == |s|
  {
    hide EqualityAt;
  }

  lemma NoEqualityFurther(lead: string, r: string, j: nat)
    requires IsLead(lead) && IsPlainOperand(r) && j < |r|
    ensures !EqualityAt(lead + r, |lead| + j)
  {
    hide Trim, Depth;
    var s := lead + r;
    LeadHasNoDepth(lead, r, j);
    assert s[|lead| + j] == r[j];
    if j + 1 < |r| { assert s[|lead| + j + 1] == r[j + 1]; }
  }

  /**
   So an operator with nothing before it is none: in front of it a `!` negates what is left, and what
   begins with `=` is no path.
   */
  lemma LeadingOperators<V>(h: Host<V>, vals: V, lead: string, r: string)
    requires IsLead(lead) && IsPlainOperand(r) && IsTrimmed(lead + r)
    ensures ValueOf(h, vals, lead + r) ==
            if lead[0] == '=' then h.undefined
            else h.bool_(!h.truthy(ValueOf(h, vals, lead[1..] + r)))
  {
    hide *;
    var s := lead + r;
    TrimmedReads(h, vals, s);
    NoEqualityBehindLead(lead, r);
    LeadComesFirst(lead, r);
    if lead[0] == '!' {
      NegationWithoutEquality(h, vals, s);
    } else {
      EqualsSignIsUndefined(h, vals, s);
    }
  }

  lemma LeadComesFirst(lead: string, r: string)
    requires IsLead(lead)
    ensures lead != [] && (lead[0] == '=' || lead[0] == '!')
    ensures lead + r != [] && (lead + r)[0] == lead[0] && (lead + r)[1..] == lead[1..] + r
  {
  }

  lemma TrimmedReads<V>(h: Host<V>, vals: V, s: string)
    requires IsTrimmed(s)
    ensures ValueOf(h, vals, s) == TrimmedValue(h, vals, s)
  {
    hide Trim, TrimmedValue;
    TrimmedIsItself(s);
  }

  lemma NegationWithoutEquality<V>(h: Host<V>, vals: V, s: string)
    requires s != [] && s[0] == '!' && FirstEquality(s, 0) == |s|
    ensures TrimmedValue(h, vals, s) == h.bool_(!h.truthy(ValueOf(h, vals, s[1..])))
  {
    hide FirstEquality, ValueOf, WrapsWhole, AtomValue;
  }

  lemma EqualsSignIsUndefined<V>(h: Host<V>, vals: V, s: string)
    requires s != [] && s[0] == '=' && FirstEquality(s, 0) == |s|
    ensures TrimmedValue(h, vals, s) == h.undefined
  {
    hide FirstEquality, ValueOf, WrapsWhole, PathValue, IsNumber, IsQuoted;
    EqualsSignIsNoAtom(s);
    NoHeadNoPath(h, vals, s);
  }

  lemma EqualsSignIsNoAtom(s: string)
    requires s != [] && s[0] == '='
    ensures !IsNumber(s) && !IsQuoted(s)
  {
  }
}

/**
 What the resolver means: a small expression language, its print, and the proof that resolving the
 print evaluates the expression.
 */
module ExpressionRoundTrip {
  import opened Wrappers
  import opened Text
  import opened ExpressionResolver

  datatype Op = Strict | StrictNot | Loose | LooseNot

  datatype Expr =
    | True | False | Null | Undefined
    | Number(digits: string)
    | Quoted(quote: char, text: string)
    | Path(head: string, steps: Steps)
    | Not(inner: Expr)
    | Equality(op: Op, left: Expr, right: Expr)

  /** Members by name or number, and bracketed keys, which are expressions again. */
  datatype Steps = End | Member(name: string, rest: Steps) | Index(key: Expr, rest: Steps)

  // ---- Print and meaning ----

  function OpText(op: Op): string {
    match op
    case Strict => "==="
    case StrictNot => "!=="
    case Loose => "=="
    case LooseNot => "!="
  }

  function InParens(s: string): string { "(" + s + ")" }

  function Print(e: Expr): string {
    match e
    case True => "true"
    case False => "false"
    case Null => "null"
    case Undefined => "undefined"
    case Number(digits) => digits
    case Quoted(quote, text) => InQuotes(quote, text)
    case Path(head, steps) => head + PrintSteps(steps)
    case Not(inner) => "!" + InParens(Print(inner))
    case Equality(op, left, right) => InParens(Print(left)) + OpText(op) + InParens(Print(right))
  }

  function InQuotes(quote: char, text: string): string { [quote] + text + [quote] }

  function PrintSteps(steps: Steps): string {
    match steps
    case End => ""
    case Member(name, rest) => "." + name + PrintSteps(rest)
    case Index(key, rest) => "[" + Print(key) + "]" + PrintSteps(rest)
  }

  function Eval<V>(h: Host<V>, vals: V, e: Expr): V {
    match e
    case True => h.bool_(true)
    case False => h.bool_(false)
    case Null => h.null_
    case Undefined => h.undefined
    case Number(digits) => h.number(digits)
    case Quoted(_, text) => h.text(text)
    case Path(head, steps) => EvalSteps(h, vals, if h.nullish(vals) then h.undefined else h.named(vals, head), steps)
    case Not(inner) => h.bool_(!h.truthy(Eval(h, vals, inner)))
    case Equality(op, left, right) =>
      var l, r := Eval(h, vals, left), Eval(h, vals, right);
      match op
      case Strict => h.bool_(h.strictEqual(l, r))
      case StrictNot => h.bool_(!h.strictEqual(l, r))
      case Loose => h.bool_(h.looseEqual(l, r))
      case LooseNot => h.bool_(!h.looseEqual(l, r))
  }

  /** The rest of a path: whatever is asked of null or undefined is undefined. */
  function EvalSteps<V>(h: Host<V>, vals: V, cur: V, steps: Steps): V {
    match steps
    case End => cur
    case Member(name, rest) => EvalSteps(h, vals, if h.nullish(cur) then h.undefined else h.named(cur, name), rest)
    case Index(key, rest) =>
      EvalSteps(h, vals, if h.nullish(cur) then h.undefined else h.keyed(cur, Eval(h, vals, key)), rest)
  }

  // ---- Which expressions ----

  predicate IsIdent(s: string) {
    s != [] && IsIdentStart(s[0]) && forall i :: 0 <= i < |s| ==> IsIdentPart(s[i])
  }

  predicate IsReserved(s: string) {
    s == "true" || s == "false" || s == "null" || s == "undefined"
  }

  predicate Balanced(open: char, close: char, s: string) {
    Depth(open, close, s) == 0 && forall i :: 0 <= i <= |s| ==> Depth(open, close, s[..i]) >= 0
  }

  /** Balanced for both bracket pairs, each counted on its own as the scans do. */
  predicate WellNested(s: string) {
    Balanced('(', ')', s) && Balanced('[', ']', s)
  }

  /** A string the resolver can see through: well nested, and no equality operator at its top level. */
  predicate IsSafeText(quote: char, text: string) {
    && (quote == '"' || quote == '\'')
    && WellNested(text)
    && FirstEquality(InQuotes(quote, text), 0) == |text| + 2
  }

  predicate WellFormed(e: Expr) {
    match e
    case True => true
    case False => true
    case Null => true
    case Undefined => true
    case Number(digits) => IsNumber(digits)
    case Quoted(quote, text) => IsSafeText(quote, text)
    case Path(head, steps) => IsIdent(head) && !(steps.End? && IsReserved(head)) && WellFormedSteps(steps)
    case Not(inner) => WellFormed(inner)
    case Equality(_, left, right) => WellFormed(left) && WellFormed(right)
  }

  predicate WellFormedSteps(steps: Steps) {
    match steps
    case End => true
    case Member(name, rest) => (IsIdent(name) || (name != [] && AllDigits(name))) && WellFormedSteps(rest)
    case Index(key, rest) => WellFormed(key) && WellFormedSteps(rest)
  }

  // ---- Depth of a concatenation ----

  lemma {:induction false} DepthConcat(open: char, close: char, a: string, b: string)
    ensures Depth(open, close, a + b) == Depth(open, close, a) + Depth(open, close, b)
  {
    if b == [] {
      assert a + b == a;
    } else {
      var n := |b| - 1;
      assert (a + b)[..|a + b| - 1] == a + b[..n] && (a + b)[|a + b| - 1] == b[n];
      DepthConcat(open, close, a, b[..n]);
    }
  }

  lemma PrefixOfConcat(a: string, b: string, i: nat)
    requires i <= |a| + |b|
    ensures (a + b)[..i] == if i <= |a| then a[..i] else a + b[..i - |a|]
  {
  }

  lemma BalancedConcat(open: char, close: char, a: string, b: string)
    requires Balanced(open, close, a) && Balanced(open, close, b)
    ensures Balanced(open, close, a + b)
  {
    hide Depth;
    DepthConcat(open, close, a, b);
    forall i | 0 <= i <= |a + b| ensures Depth(open, close, (a + b)[..i]) >= 0 {
      PrefixOfConcat(a, b, i);
      if i > |a| { DepthConcat(open, close, a, b[..i - |a|]); }
    }
  }

  /** A pair of characters around a balanced string, when both are outside the pair or both are the pair. */
  lemma BalancedWrap(open: char, close: char, x: char, p: string, y: char)
    requires open != close && Balanced(open, close, p)
    requires (x == open && y == close) || (Weight(open, close, x) == 0 == Weight(open, close, y))
    ensures Balanced(open, close, [x] + p + [y])
    ensures forall i :: 1 <= i <= |p| + 1 ==> Depth(open, close, ([x] + p + [y])[..i]) >= Weight(open, close, x)
  {
    var s := [x] + p + [y];
    CharDepth(open, close, x);
    CharDepth(open, close, y);
    hide Depth;
    forall i | 1 <= i <= |p| + 1
      ensures Depth(open, close, s[..i]) == Weight(open, close, x) + Depth(open, close, p[..i - 1])
    {
      assert s[..i] == [x] + p[..i - 1];
      DepthConcat(open, close, [x], p[..i - 1]);
    }
    assert s[..|p| + 1] == [x] + p && p[..|p|] == p;
    DepthConcat(open, close, [x] + p, [y]);
    forall i | 0 <= i <= |s| ensures Depth(open, close, s[..i]) >= 0 {
      if i == 0 {
        EmptyDepth(open, close, s[..0]);
      } else if i == |s| {
        assert s[..i] == s;
      }
    }
  }

  lemma CharDepth(open: char, close: char, c: char)
    ensures Depth(open, close, [c]) == Weight(open, close, c)
  {
    assert [c][..0] == [];
  }

  lemma EmptyDepth(open: char, close: char, s: string)
    requires s == []
    ensures Depth(open, close, s) == 0
  {
  }

  /** No bracket at all. */
  predicate IsFlat(s: string) {
    forall i :: 0 <= i < |s| ==> s[i] != '(' && s[i] != ')' && s[i] != '[' && s[i] != ']'
  }

  lemma {:induction false} FlatDepth(open: char, close: char, s: string)
    requires forall i :: 0 <= i < |s| ==> Weight(open, close, s[i]) == 0
    ensures Depth(open, close, s) == 0
  {
    if s != [] { FlatDepth(open, close, s[..|s| - 1]); }
  }

  lemma FlatIsWellNested(s: string)
    requires IsFlat(s)
    ensures WellNested(s)
  {
    hide Depth;
    FlatDepth('(', ')', s);
    FlatDepth('[', ']', s);
    forall i | 0 <= i <= |s| ensures Depth('(', ')', s[..i]) >= 0 && Depth('[', ']', s[..i]) >= 0 {
      FlatDepth('(', ')', s[..i]);
      FlatDepth('[', ']', s[..i]);
    }
  }

  lemma WellNestedConcat(a: string, b: string)
    requires WellNested(a) && WellNested(b)
    ensures WellNested(a + b)
  {
    hide Balanced;
    BalancedConcat('(', ')', a, b);
    BalancedConcat('[', ']', a, b);
  }

  /** Inside a pair of brackets, or of quotes, the two depths add up to at least the pair's own. */
  lemma WellNestedWrap(x: char, p: string, y: char)
    requires WellNested(p)
    requires (x == '(' && y == ')') || (x == '[' && y == ']') || IsFlat([x, y])
    ensures WellNested([x] + p + [y])
    ensures forall i :: 1 <= i <= |p| + 1 ==>
              var pre := ([x] + p + [y])[..i]; Parens(pre) + Squares(pre) >= if x == '(' || x == '[' then 1 else 0
    ensures x == '(' ==> forall i :: 1 <= i <= |p| + 1 ==> Parens(([x] + p + [y])[..i]) >= 1
  {
    if IsFlat([x, y]) {
      assert [x, y][0] == x && [x, y][1] == y;
    }
    hide Balanced, Depth, IsFlat;
    BalancedWrap('(', ')', x, p, y);
    BalancedWrap('[', ']', x, p, y);
  }

  // ---- What every print looks like ----

  /** Nonempty and free of surrounding white space, so trimming leaves it alone. */
  predicate IsSolid(s: string) {
    s != [] && !IsSpace(s[0]) && !IsSpace(s[|s| - 1])
  }

  lemma SolidTrims(s: string)
    requires IsSolid(s)
    ensures Trim(s) == s
  {
    TrimmedIsItself(s);
  }

  lemma NumberCharacters(s: string)
    requires IsNumber(s)
    ensures forall i :: 0 <= i < |s| ==> IsDigit(s[i]) || s[i] == '.' || s[i] == '-'
    ensures s != [] && (IsDigit(s[0]) || s[0] == '-') && s[|s| - 1] != '.' && s[|s| - 1] != '-'
  {
    if IsDecimal(s) {
      DecimalCharacters(s);
    } else {
      DecimalCharacters(s[1..]);
    }
  }

  lemma DecimalCharacters(s: string)
    requires IsDecimal(s)
    ensures forall i :: 0 <= i < |s| ==> IsDigit(s[i]) || s[i] == '.'
    ensures s != [] && IsDigit(s[0]) && IsDigit(s[|s| - 1])
  {
    var i := DotIndex(s);
    var whole, frac := s[..i], if i < |s| then s[i + 1..] else "";
    forall j | 0 <= j < |s| ensures IsDigit(s[j]) || s[j] == '.' {
      if j < i {
        assert s[j] == whole[j];
      } else if j > i {
        assert s[j] == frac[j - i - 1];
      }
    }
    assert s[0] == whole[0];
    if i < |s| {
      assert s[|s| - 1] == frac[|frac| - 1];
    } else {
      assert s[|s| - 1] == whole[|s| - 1];
    }
  }

  lemma {:induction false} PrintIsWellNested(e: Expr)
    requires WellFormed(e)
    ensures WellNested(Print(e)) && IsSolid(Print(e))
  {
    hide WellNested, IsNumber, FirstEquality, IsSolid, InParens, InQuotes, OpText;
    match e
    case Number(digits) =>
      NumberIsSolid(digits);
    case Quoted(quote, text) =>
      QuotedIsSolid(quote, text);
    case Path(head, steps) =>
      StepsAreWellNested(steps);
      PathIsSolid(head, PrintSteps(steps));
    case Not(inner) =>
      PrintIsWellNested(inner);
      NotIsSolid(Print(inner));
    case Equality(op, left, right) =>
      PrintIsWellNested(left);
      PrintIsWellNested(right);
      EqualityIsSolid(Print(left), op, Print(right));
    case _ => WordIsSolid(Print(e));
  }

  lemma QuotedIsSolid(quote: char, text: string)
    requires (quote == '"' || quote == '\'') && WellNested(text)
    ensures WellNested(InQuotes(quote, text)) && IsSolid(InQuotes(quote, text))
  {
    hide WellNested;
    WellNestedWrap(quote, text, quote);
  }

  lemma WordIsSolid(s: string)
    requires IsReserved(s)
    ensures WellNested(s) && IsSolid(s)
  {
    FlatIsWellNested(s);
  }

  lemma NumberIsSolid(s: string)
    requires IsNumber(s)
    ensures WellNested(s) && IsSolid(s)
  {
    NumberCharacters(s);
    hide IsNumber, WellNested;
    FlatIsWellNested(s);
  }

  lemma PathIsSolid(head: string, tail: string)
    requires IsIdent(head) && WellNested(tail) && (tail != [] ==> !IsSpace(tail[|tail| - 1]))
    ensures WellNested(head + tail) && IsSolid(head + tail)
  {
    FlatIsWellNested(head);
    WellNestedConcat(head, tail);
    hide WellNested;
    var s := head + tail;
    assert s[0] == head[0];
    assert s[|s| - 1] == if tail == [] then head[|head| - 1] else tail[|tail| - 1];
  }

  lemma InParensIs(p: string)
    requires WellNested(p)
    ensures var s := InParens(p); WellNested(s) && |s| == |p| + 2 && s[0] == '(' && s[|s| - 1] == ')'
  {
    WellNestedWrap('(', p, ')');
  }

  /** A print that starts with '(' or '!' and ends with ')' is solid. */
  lemma ClosedIsSolid(s: string)
    requires s != [] && (s[0] == '(' || s[0] == '!') && s[|s| - 1] == ')'
    ensures IsSolid(s)
  {
  }

  lemma NotIsSolid(p: string)
    requires WellNested(p)
    ensures WellNested("!" + InParens(p)) && IsSolid("!" + InParens(p))
  {
    FlatIsWellNested("!");
    hide WellNested, InParens, IsSolid;
    var a := InParens(p);
    InParensIs(p);
    WellNestedConcat("!", a);
    var s := "!" + a;
    assert s[0] == '!' && s[|s| - 1] == a[|a| - 1];
    ClosedIsSolid(s);
  }

  lemma OpIsWellNested(op: Op)
    ensures WellNested(OpText(op))
  {
    FlatIsWellNested(OpText(op));
  }

  lemma EqualityIsSolid(l: string, op: Op, r: string)
    requires WellNested(l) && WellNested(r)
    ensures WellNested(InParens(l) + OpText(op) + InParens(r)) && IsSolid(InParens(l) + OpText(op) + InParens(r))
  {
    hide *;
    var a, o, b := InParens(l), OpText(op), InParens(r);
    InParensIs(l);
    InParensIs(r);
    OpIsWellNested(op);
    WellNestedConcat(a, o);
    WellNestedConcat(a + o, b);
    var s := a + o + b;
    assert s[0] == a[0] && s[|s| - 1] == b[|b| - 1];
    ClosedIsSolid(s);
  }

  lemma {:induction false} StepsAreWellNested(steps: Steps)
    requires WellFormedSteps(steps)
    ensures WellNested(PrintSteps(steps))
    ensures PrintSteps(steps) != [] ==> !IsSpace(PrintSteps(steps)[|PrintSteps(steps)| - 1])
    ensures PrintSteps(steps) != [] ==> PrintSteps(steps)[0] == '.' || PrintSteps(steps)[0] == '['
  {
    hide WellNested;
    match steps
    case End => FlatIsWellNested("");
    case Member(name, rest) =>
      FlatIsWellNested("." + name);
      StepsAreWellNested(rest);
      WellNestedConcat("." + name, PrintSteps(rest));
    case Index(key, rest) =>
      PrintIsWellNested(key);
      WellNestedWrap('[', Print(key), ']');
      StepsAreWellNested(rest);
      WellNestedConcat("[" + Print(key) + "]", PrintSteps(rest));
  }

  // ---- The scans on prints ----

  lemma ValueInParens<V>(h: Host<V>, vals: V, p: string)
    requires WellNested(p)
    ensures ValueOf(h, vals, InParens(p)) == ValueOf(h, vals, p)
  {
    var s := InParens(p);
    WellNestedWrap('(', p, ')');
    hide WellNested, Parens, FirstEquality;
    assert ['('] + p + [')'] == s;
    assert WrapsWhole(s);
    assert s[1..|s| - 1] == p;
    SolidTrims(s);
  }

  /** Positions inside a wrapped part keep a positive depth, so no equality starts there. */
  lemma NoEqualityInside(pre: string, p: string, post: string, j: nat)
    requires WellNested(pre) && WellNested(p)
    requires |pre| <= j <= |pre| + |p| + 1
    ensures !EqualityAt(pre + InParens(p) + post, j)
  {
    var s := pre + InParens(p) + post;
    hide WellNested, Parens, Squares, Trim;
    if j == |pre| {
      assert s[j] == '(';
    } else {
      WellNestedWrap('(', p, ')');
      var inner := (['('] + p + [')'])[..j - |pre|];
      assert s[..j] == pre + inner;
      DepthsConcat(pre, inner);
      WellNestedDepth(pre);
    }
  }

  lemma DepthsConcat(a: string, b: string)
    ensures Parens(a + b) == Parens(a) + Parens(b) && Squares(a + b) == Squares(a) + Squares(b)
  {
    DepthConcat('(', ')', a, b);
    DepthConcat('[', ']', a, b);
  }

  lemma WellNestedDepth(s: string)
    requires WellNested(s)
    ensures Parens(s) == 0 == Squares(s)
  {
  }

  /** A negation of a parenthesised part. */
  lemma ValueOfNot<V>(h: Host<V>, vals: V, p: string)
    requires WellNested(p)
    ensures ValueOf(h, vals, "!" + InParens(p)) == h.bool_(!h.truthy(ValueOf(h, vals, InParens(p))))
  {
    var s := "!" + InParens(p);
    FlatIsWellNested("!");
    assert s == "!" + InParens(p) + "";
    forall j | 0 <= j < |s| ensures !EqualityAt(s, j) {
      if j > 0 { NoEqualityInside("!", p, "", j); }
    }
    SolidTrims(s);
    assert s[1..] == InParens(p);
    hide WellNested, EqualityAt, WrapsWhole, Trim, InParens;
    SolidValue(h, vals, s);
  }

  lemma SolidValue<V>(h: Host<V>, vals: V, s: string)
    requires Trim(s) == s
    ensures ValueOf(h, vals, s) == TrimmedValue(h, vals, s)
  {
    hide TrimmedValue;
  }

  /** The first equality of two parenthesised operands is the operator between them. */
  lemma EqualityBetween(l: string, op: Op, r: string)
    requires WellNested(l) && WellNested(r)
    ensures var s := InParens(l) + OpText(op) + InParens(r);
            && FirstEquality(s, 0) == |l| + 2 && OperatorAt(s, |l| + 2) == OpText(op)
            && !WrapsWhole(s)
  {
    hide WellNested, Parens, EqualityAt, WrapsWhole, OperatorAt, Trim, IsSpace;
    var s := InParens(l) + OpText(op) + InParens(r);
    var k := |l| + 2;
    OperatorStarts(l, op, r);
    FlatIsWellNested("");
    assert s == "" + InParens(l) + (OpText(op) + InParens(r));
    forall j | 0 <= j < k ensures !EqualityAt(s, j) {
      NoEqualityInside("", l, OpText(op) + InParens(r), j);
    }
  }

  lemma OperatorStarts(l: string, op: Op, r: string)
    requires WellNested(l) && WellNested(r)
    ensures var s := InParens(l) + OpText(op) + InParens(r);
            EqualityAt(s, |l| + 2) && OperatorAt(s, |l| + 2) == OpText(op) && !WrapsWhole(s)
  {
    var s := InParens(l) + OpText(op) + InParens(r);
    var k := |l| + 2;
    var left := InParens(l);
    LeftOperand(l);
    hide WellNested, Parens, Squares, Trim, IsSpace, OpText;
    OperatorLetters(op);
    OperatorAfter(left, OpText(op), InParens(r));
    assert s[k - 1] == left[k - 1] == ')' && s[k + 2] == if |OpText(op)| == 3 then '=' else '(';
  }

  lemma LeftOperand(l: string)
    requires WellNested(l)
    ensures var left := InParens(l);
            Parens(left) == 0 && Squares(left) == 0 && WellNested(left) && Trim(left) != []
            && |left| == |l| + 2 && left[|l| + 1] == ')' && left[0] == '('
  {
    var left := InParens(l);
    WellNestedWrap('(', l, ')');
    assert ['('] + l + [')'] == left;
    WellNestedDepth(left);
    assert Trim(left) != [] by { SolidTrims(left); }
  }

  lemma OperatorLetters(op: Op)
    ensures var t := OpText(op); (|t| == 2 || |t| == 3) && (t[0] == '=' || t[0] == '!') && t[1] == '='
    ensures |OpText(op)| == 3 ==> OpText(op)[2] == '='
    ensures OpText(op) in {"===", "!==", "==", "!="}
  {
  }

  lemma OperatorAfter(left: string, t: string, right: string)
    requires |t| >= 2
    ensures var s := left + t + right;
            && s[..|left|] == left && s[|left|..] == t + right
            && s[|left|] == t[0] && s[|left| + 1] == t[1]
            && (|t| > 2 ==> s[|left| + 2] == t[2])
            && (|t| == 2 && right != [] ==> s[|left| + 2] == right[0])
    ensures forall i :: 0 <= i < |left| ==> (left + t + right)[i] == left[i]
  {
  }

  lemma ValueOfEquality<V>(h: Host<V>, vals: V, l: string, op: Op, r: string)
    requires WellNested(l) && WellNested(r)
    ensures ValueOf(h, vals, InParens(l) + OpText(op) + InParens(r)) ==
            Compare(h, OpText(op), ValueOf(h, vals, InParens(l)), ValueOf(h, vals, InParens(r)))
  {
    var s := InParens(l) + OpText(op) + InParens(r);
    EqualityBetween(l, op, r);
    SolidTrims(s);
    assert s[..|l| + 2] == InParens(l) && s[|l| + 2 + |OpText(op)|..] == InParens(r);
    hide WellNested, WrapsWhole, Trim, InParens, FirstEquality;
    SolidValue(h, vals, s);
  }

  // ---- Atoms and paths ----

  /** Outside brackets there is neither '=' nor '!'. */
  predicate IsCalm(s: string) {
    forall j :: 0 <= j < |s| && (s[j] == '=' || s[j] == '!') ==> Parens(s[..j]) + Squares(s[..j]) > 0
  }

  lemma CalmValue<V>(h: Host<V>, vals: V, s: string)
    requires IsSolid(s) && s[0] != '(' && FirstEquality(s, 0) == |s| && s[0] != '!'
    ensures ValueOf(h, vals, s) == AtomValue(h, vals, s)
  {
    SolidTrims(s);
    hide Trim, AtomValue;
    SolidValue(h, vals, s);
  }

  lemma CalmHasNoEquality(s: string)
    requires IsCalm(s)
    ensures FirstEquality(s, 0) == |s|
  {
    hide Parens, Squares, Trim;
    forall j | 0 <= j < |s| ensures !EqualityAt(s, j) {}
  }

  lemma CalmConcat(a: string, b: string)
    requires WellNested(a) && IsCalm(a) && IsCalm(b)
    ensures IsCalm(a + b)
  {
    WellNestedDepth(a);
    hide Parens, Squares, WellNested;
    forall j | 0 <= j < |a + b| && ((a + b)[j] == '=' || (a + b)[j] == '!')
      ensures Parens((a + b)[..j]) + Squares((a + b)[..j]) > 0
    {
      PrefixOfConcat(a, b, j);
      if j >= |a| { DepthsConcat(a, b[..j - |a|]); }
    }
  }

  lemma CalmIndex(p: string)
    requires WellNested(p)
    ensures IsCalm("[" + p + "]")
  {
    WellNestedWrap('[', p, ']');
    hide WellNested, Parens, Squares;
    assert ['['] + p + [']'] == "[" + p + "]";
  }

  lemma {:induction false} StepsAreCalm(steps: Steps)
    requires WellFormedSteps(steps)
    ensures IsCalm(PrintSteps(steps))
  {
    hide WellNested, IsCalm;
    match steps
    case End => CalmName("");
    case Member(name, rest) =>
      FlatIsWellNested("." + name);
      CalmName("." + name);
      StepsAreCalm(rest);
      CalmConcat("." + name, PrintSteps(rest));
    case Index(key, rest) =>
      PrintIsWellNested(key);
      CalmIndex(Print(key));
      WellNestedWrap('[', Print(key), ']');
      assert ['['] + Print(key) + [']'] == "[" + Print(key) + "]";
      StepsAreCalm(rest);
      CalmConcat("[" + Print(key) + "]", PrintSteps(rest));
  }

  lemma CalmName(s: string)
    requires forall i :: 0 <= i < |s| ==> s[i] != '=' && s[i] != '!'
    ensures IsCalm(s)
  {
  }

  // ---- Path segments ----

  /** What may follow a name in a path. */
  predicate EndsName(tail: string) {
    tail == [] || tail[0] == '.' || tail[0] == '['
  }

  lemma PartLengthOf(name: string, tail: string)
    requires (forall i :: 0 <= i < |name| ==> IsIdentPart(name[i])) && EndsName(tail)
    ensures PartLength(name + tail) == |name|
  {
    PointAndBracketEnd(tail);
    hide PartLength, IsIdentPart, EndsName;
    var s := name + tail;
    assert forall i :: 0 <= i < |name| ==> s[i] == name[i];
    assert tail != [] ==> s[|name|] == tail[0];
  }

  lemma DigitsLengthOf(name: string, tail: string)
    requires AllDigits(name) && EndsName(tail)
    ensures DigitsLength(name + tail) == |name|
  {
    PointAndBracketEnd(tail);
    hide DigitsLength, IsDigit, EndsName;
    var s := name + tail;
    assert forall i :: 0 <= i < |name| ==> s[i] == name[i];
    assert tail != [] ==> s[|name|] == tail[0];
  }

  lemma PointAndBracketEnd(tail: string)
    requires EndsName(tail)
    ensures tail != [] ==> !IsIdentPart(tail[0]) && !IsDigit(tail[0])
  {
  }

  lemma MemberLengthOf(name: string, tail: string)
    requires IsIdent(name) || (name != [] && AllDigits(name))
    requires EndsName(tail)
    ensures MemberLength(name + tail) == |name|
    ensures IsIdent(name) ==> IdentLength(name + tail) == |name|
  {
    assert (name + tail)[0] == name[0];
    hide PartLength, DigitsLength;
    if IsIdent(name) {
      PartLengthOf(name, tail);
    } else {
      DigitsLengthOf(name, tail);
    }
  }

  /** The bracket that closes a key is the one after its print. */
  lemma CloseBracketOf(s: string, start: nat, p: string)
    requires WellNested(p)
    requires start + |p| < |s| && s[start..start + |p|] == p && s[start + |p|] == ']'
    ensures CloseBracket(s, start, start) == start + |p|
  {
    hide Squares, WellNested;
    WellNestedDepth(p);
    var j := CloseBracket(s, start, start);
    if j < start + |p| {
      SliceOfSlice(s, start, start + |p|, j);
      NoEarlyClose(p, j - start);
    }
  }

  lemma SliceOfSlice(s: string, start: nat, end: nat, j: nat)
    requires start <= j < end <= |s|
    ensures s[start..end][..j - start] == s[start..j] && s[start..end][j - start] == s[j]
  {
  }

  lemma NoEarlyClose(p: string, k: nat)
    requires WellNested(p) && k < |p|
    ensures !(p[k] == ']' && Squares(p[..k]) == 0)
  {
    DepthStep('[', ']', p, k);
  }

  // ---- The theorem ----

  /** Resolving the print of a path's steps, wherever they stand in a string, applies the steps. */
  lemma {:induction false} StepsRoundTrip<V>(h: Host<V>, vals: V, cur: V, s: string, i: nat, steps: Steps)
    requires WellFormedSteps(steps) && i <= |s| && s[i..] == PrintSteps(steps)
    ensures StepsValue(h, vals, cur, s, i) == EvalSteps(h, vals, cur, steps)
    decreases steps
  {
    hide *;
    match steps
    case End =>
      EndStep(h, vals, cur, s, i);
    case Member(name, rest) =>
      MemberStep(h, vals, cur, s, i, name, rest);
      StepsRoundTrip(h, vals, Named(h, cur, name), s, i + 1 + |name|, rest);
    case Index(key, rest) =>
      IndexStep(h, vals, cur, s, i, key, rest);
      RoundTrip(h, vals, key);
      StepsRoundTrip(h, vals, Keyed(h, cur, Eval(h, vals, key)), s, i + 2 + |Print(key)|, rest);
  }

  lemma EndStep<V>(h: Host<V>, vals: V, cur: V, s: string, i: nat)
    requires i <= |s| && s[i..] == PrintSteps(End)
    ensures StepsValue(h, vals, cur, s, i) == cur == EvalSteps(h, vals, cur, End)
  {
    assert |s[i..]| == |s| - i;
  }

  lemma MemberStep<V>(h: Host<V>, vals: V, cur: V, s: string, i: nat, name: string, rest: Steps)
    requires WellFormedSteps(Member(name, rest)) && i <= |s| && s[i..] == PrintSteps(Member(name, rest))
    ensures WellFormedSteps(rest)
    ensures i + 1 + |name| <= |s| && s[i + 1 + |name|..] == PrintSteps(rest)
    ensures StepsValue(h, vals, cur, s, i) == StepsValue(h, vals, Named(h, cur, name), s, i + 1 + |name|)
    ensures EvalSteps(h, vals, cur, Member(name, rest)) == EvalSteps(h, vals, Named(h, cur, name), rest)
  {
    hide *;
    var tail := PrintSteps(rest);
    MemberUnfolds(h, vals, cur, name, rest);
    TailEndsName(rest);
    MemberLengthOf(name, tail);
    TailOfStep(s, i, ".", name, tail);
    StepsFrom(h, vals, cur, s, i);
  }

  lemma MemberUnfolds<V>(h: Host<V>, vals: V, cur: V, name: string, rest: Steps)
    requires WellFormedSteps(Member(name, rest))
    ensures PrintSteps(Member(name, rest)) == "." + name + PrintSteps(rest)
    ensures EvalSteps(h, vals, cur, Member(name, rest)) == EvalSteps(h, vals, Named(h, cur, name), rest)
    ensures WellFormedSteps(rest) && (IsIdent(name) || (name != [] && AllDigits(name))) && name != []
  {
  }

  lemma IndexUnfolds<V>(h: Host<V>, vals: V, cur: V, key: Expr, rest: Steps)
    requires WellFormedSteps(Index(key, rest))
    ensures PrintSteps(Index(key, rest)) == "[" + Print(key) + "]" + PrintSteps(rest)
    ensures EvalSteps(h, vals, cur, Index(key, rest)) == EvalSteps(h, vals, Keyed(h, cur, Eval(h, vals, key)), rest)
    ensures WellFormedSteps(rest) && WellFormed(key)
  {
  }

  lemma TailEndsName(steps: Steps)
    ensures EndsName(PrintSteps(steps))
  {
  }

  lemma IndexStep<V>(h: Host<V>, vals: V, cur: V, s: string, i: nat, key: Expr, rest: Steps)
    requires WellFormedSteps(Index(key, rest)) && i <= |s| && s[i..] == PrintSteps(Index(key, rest))
    ensures WellFormedSteps(rest) && WellFormed(key)
    ensures var j := i + 2 + |Print(key)|;
            && j <= |s| && s[j..] == PrintSteps(rest)
            && StepsValue(h, vals, cur, s, i) == StepsValue(h, vals, Keyed(h, cur, ValueOf(h, vals, Print(key))), s, j)
            && EvalSteps(h, vals, cur, Index(key, rest)) == EvalSteps(h, vals, Keyed(h, cur, Eval(h, vals, key)), rest)
  {
    hide *;
    var p, tail := Print(key), PrintSteps(rest);
    IndexUnfolds(h, vals, cur, key, rest);
    PrintIsWellNested(key);
    IndexSlices(s, i, p, tail);
    CloseBracketOf(s, i + 1, p);
    StepsFrom(h, vals, cur, s, i);
  }

  lemma IndexSlices(s: string, i: nat, p: string, tail: string)
    requires i <= |s| && s[i..] == "[" + p + "]" + tail
    ensures i + 1 + |p| < |s| && s[i] == '[' && s[i + 1..i + 1 + |p|] == p
    ensures s[i + 1 + |p|] == ']' && s[i + 2 + |p|..] == tail
  {
    var close := "]" + tail;
    assert "[" + p + "]" + tail == "[" + p + close;
    TailOfStep(s, i, "[", p, close);
    assert close[1..] == tail;
  }

  lemma TailOfStep(s: string, i: nat, mark: string, body: string, tail: string)
    requires i <= |s| && |mark| == 1 && s[i..] == mark + body + tail
    ensures i < |s| && s[i] == mark[0] && s[i + 1..] == body + tail
    ensures i + 1 + |body| <= |s| && s[i + 1..i + 1 + |body|] == body && s[i + 1 + |body|..] == tail
    ensures tail != [] ==> i + 1 + |body| < |s| && s[i + 1 + |body|] == tail[0] && s[i + 1 + |body| + 1..] == tail[1..]
  {
    var all := mark + body + tail;
    assert s[i] == all[0] && s[i + 1..] == all[1..] && all[1..] == body + tail;
    assert (body + tail)[..|body|] == body && (body + tail)[|body|..] == tail;
  }

  /** A path is none of the other atoms. */
  lemma PathIsNoOtherAtom(head: string, tail: string)
    requires IsIdent(head) && EndsName(tail) && !(tail == [] && IsReserved(head))
    ensures var s := head + tail; !IsReserved(s) && !IsNumber(s) && !IsQuoted(s)
  {
    var s := head + tail;
    assert s[0] == head[0];
    IdentIsNoNumber(s);
    hide IsNumber;
    if tail == [] {
      assert s == head;
    } else {
      assert s[|head|] == tail[0];
      ReservedHasNoMark(s, |head|);
    }
  }

  lemma ReservedHasNoMark(s: string, i: nat)
    requires i < |s| && (s[i] == '.' || s[i] == '[')
    ensures !IsReserved(s)
  {
  }

  lemma IdentIsNoNumber(s: string)
    requires s != [] && IsIdentStart(s[0])
    ensures !IsNumber(s)
  {
    if IsNumber(s) {
      NumberCharacters(s);
      assert false;
    }
  }

  lemma PathRoundTrip<V>(h: Host<V>, vals: V, head: string, steps: Steps)
    requires WellFormed(Path(head, steps))
    requires forall cur :: StepsValue(h, vals, cur, head + PrintSteps(steps), |head|) == EvalSteps(h, vals, cur, steps)
    ensures ValueOf(h, vals, head + PrintSteps(steps)) == Eval(h, vals, Path(head, steps))
  {
    hide ValueOf, StepsValue, WellFormed, Print, PrintSteps, FirstEquality, IsSolid, IdentLength, EvalSteps,
         IsIdent, IsNumber;
    var s := head + PrintSteps(steps);
    PathIsAnAtom(head, steps);
    CalmValue(h, vals, s);
    assert s[..|head|] == head;
  }

  /** The print of a path reaches resolvePath, which takes its head off first. */
  lemma PathIsAnAtom(head: string, steps: Steps)
    requires WellFormed(Path(head, steps))
    ensures var s := head + PrintSteps(steps);
            && IsSolid(s) && s[0] != '(' && s[0] != '!' && FirstEquality(s, 0) == |s|
            && !IsReserved(s) && !IsNumber(s) && !IsQuoted(s)
            && head != [] && IdentLength(s) == |head|
  {
    hide WellNested, IsCalm, FirstEquality, IsNumber, IdentLength, MemberLength, IsQuoted, WellFormedSteps;
    var tail := PrintSteps(steps);
    var s := head + tail;
    PrintIsWellNested(Path(head, steps));
    StepsAreWellNested(steps);
    PathIsNoOtherAtom(head, tail);
    MemberLengthOf(head, tail);
    PathHasNoEquality(head, steps);
    assert s[0] == head[0];
  }

  lemma PathHasNoEquality(head: string, steps: Steps)
    requires IsIdent(head) && WellFormedSteps(steps)
    ensures FirstEquality(head + PrintSteps(steps), 0) == |head + PrintSteps(steps)|
  {
    FlatIsWellNested(head);
    CalmName(head);
    hide WellNested, IsCalm, FirstEquality;
    StepsAreCalm(steps);
    CalmConcat(head, PrintSteps(steps));
    CalmHasNoEquality(head + PrintSteps(steps));
  }

  lemma AtomRoundTrip<V>(h: Host<V>, vals: V, e: Expr)
    requires WellFormed(e) && (e.True? || e.False? || e.Null? || e.Undefined? || e.Number? || e.Quoted?)
    ensures ValueOf(h, vals, Print(e)) == Eval(h, vals, e)
  {
    var s := Print(e);
    AtomIsAnAtom(e);
    hide ValueOf, WellFormed, FirstEquality, IsSolid, PathValue;
    CalmValue(h, vals, s);
    assert e.Quoted? ==> s[1..|s| - 1] == e.text;
  }

  lemma AtomIsAnAtom(e: Expr)
    requires WellFormed(e) && (e.True? || e.False? || e.Null? || e.Undefined? || e.Number? || e.Quoted?)
    ensures var s := Print(e);
            && IsSolid(s) && s[0] != '(' && s[0] != '!' && FirstEquality(s, 0) == |s|
            && (e.Quoted? ==> !IsNumber(s)) && (e.Quoted? || e.Number? ==> !IsReserved(s))
  {
    hide WellNested, FirstEquality, IsCalm, IsDecimal;
    var s := Print(e);
    PrintIsWellNested(e);
    if e.Number? { NumberCharacters(s); }
    if !e.Quoted? {
      CalmName(s);
      CalmHasNoEquality(s);
    }
    if e.Quoted? { QuoteIsNoNumber(s); }
  }

  lemma QuoteIsNoNumber(s: string)
    requires s != [] && (s[0] == '"' || s[0] == '\'')
    ensures !IsNumber(s)
  {
    if IsNumber(s) {
      NumberCharacters(s);
      assert false;
    }
  }

  /**
   Resolving the print of an expression gives the expression's value, for every host, every set of
   values and every well-formed expression, however deeply nested.
   */
  lemma {:induction false} RoundTrip<V>(h: Host<V>, vals: V, e: Expr)
    requires WellFormed(e)
    ensures ValueOf(h, vals, Print(e)) == Eval(h, vals, e)
    decreases e
  {
    hide ValueOf, WellNested, InParens;
    match e
    case Path(head, steps) =>
      var s := head + PrintSteps(steps);
      assert s[|head|..] == PrintSteps(steps);
      forall cur ensures StepsValue(h, vals, cur, s, |head|) == EvalSteps(h, vals, cur, steps) {
        StepsRoundTrip(h, vals, cur, s, |head|, steps);
      }
      PathRoundTrip(h, vals, head, steps);
    case Not(inner) =>
      PrintIsWellNested(inner);
      RoundTrip(h, vals, inner);
      ValueInParens(h, vals, Print(inner));
      ValueOfNot(h, vals, Print(inner));
    case Equality(op, left, right) =>
      PrintIsWellNested(left);
      PrintIsWellNested(right);
      RoundTrip(h, vals, left);
      RoundTrip(h, vals, right);
      ValueInParens(h, vals, Print(left));
      ValueInParens(h, vals, Print(right));
      ValueOfEquality(h, vals, Print(left), op, Print(right));
    case _ => AtomRoundTrip(h, vals, e);
  }

  // ---- Quoted strings, exactly ----

  /**
   A quoted string gives its content exactly when the equality scan, which does not know about quotes,
   finds nothing in it; a boolean is never that content.
   */
  lemma QuotedStringExactly<V>(h: Host<V>, vals: V, quote: char, text: string)
    requires quote == '"' || quote == '\''
    requires forall b :: h.bool_(b) != h.text(text)
    ensures ValueOf(h, vals, InQuotes(quote, text)) == h.text(text) <==>
            FirstEquality(InQuotes(quote, text), 0) == |text| + 2
  {
    var s := InQuotes(quote, text);
    QuotedShape(quote, text);
    hide *;
    if FirstEquality(s, 0) == |s| {
      CalmValue(h, vals, s);
      QuotedAtom(h, vals, quote, text);
    } else {
      var b := SplitIsBoolean(h, vals, s);
    }
  }

  lemma QuotedShape(quote: char, text: string)
    requires quote == '"' || quote == '\''
    ensures var s := InQuotes(quote, text);
            |s| == |text| + 2 && IsSolid(s) && s[0] == quote && s[0] != '(' && s[0] != '!' && FirstEquality(s, 0) <= |s|
  {
  }

  lemma QuotedAtom<V>(h: Host<V>, vals: V, quote: char, text: string)
    requires quote == '"' || quote == '\''
    ensures AtomValue(h, vals, InQuotes(quote, text)) == h.text(text)
  {
    var s := InQuotes(quote, text);
    QuoteIsNoNumber(s);
    assert s[1..|s| - 1] == text && s[0] == quote;
    hide IsNumber, PathValue;
  }

  /** Where the equality scan finds something, the value is a boolean. */
  lemma SplitIsBoolean<V>(h: Host<V>, vals: V, s: string) returns (b: bool)
    requires IsSolid(s) && s[0] != '(' && FirstEquality(s, 0) < |s|
    ensures ValueOf(h, vals, s) == h.bool_(b)
  {
    SolidTrims(s);
    var k := FirstEquality(s, 0);
    TopEqualityIsInside(s, k);
    hide ValueOf, FirstEquality, Trim, IsSolid, OperatorAt, Holds;
    SolidValue(h, vals, s);
    var op := OperatorAt(s, k);
    b := Holds(h, op, ValueOf(h, vals, s[..k]), ValueOf(h, vals, s[k + |op|..]));
  }

  /** Text without brackets, '=' and '!' is safe in either quotes. */
  lemma PlainTextIsSafe(quote: char, text: string)
    requires quote == '"' || quote == '\''
    requires IsFlat(text) && forall i :: 0 <= i < |text| ==> text[i] != '=' && text[i] != '!'
    ensures IsSafeText(quote, text)
  {
    FlatIsWellNested(text);
    CalmName(InQuotes(quote, text));
    CalmHasNoEquality(InQuotes(quote, text));
  }

  /** '==' in quotes is taken for a comparison of two stray quotes, neither of which is anything. */
  lemma QuotedEqualityIsSplit<V>(h: Host<V>, vals: V)
    ensures ValueOf(h, vals, "'=='") == h.bool_(h.looseEqual(h.undefined, h.undefined))
  {
    var s := "'=='";
    FlatIsWellNested("'");
    WellNestedDepth("'");
    assert s[..1] == "'" && s[3..] == "'";
    SolidTrims("'");
    SolidTrims(s);
    assert EqualityAt(s, 1) by { hide Parens, Squares, Trim; }
    hide Trim, WellNested, IsSpace, Parens, Squares, ValueOf;
    StrayQuote(h, vals);
    SolidValue(h, vals, s);
    assert FirstEquality(s, 0) == 1 && OperatorAt(s, 1) == "==";
  }

  lemma StrayQuote<V>(h: Host<V>, vals: V)
    ensures ValueOf(h, vals, "'") == h.undefined
  {
    CalmName("'");
    CalmHasNoEquality("'");
    QuoteIsNoNumber("'");
    hide ValueOf, FirstEquality, Trim, Parens, Squares, IsNumber;
    CalmValue(h, vals, "'");
  }
}

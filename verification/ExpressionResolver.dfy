/**
 The template expression resolver: a recursive string evaluator that finds its structure by counting
 brackets. What JavaScript does with the values themselves is a parameter, the host.
 */
module ExpressionResolver {
  import opened Wrappers
  import opened Text

  /** The operations of the language the resolver runs in, on its values. */
  datatype Host<!V> = Host(
    undefined: V, null_: V, bool_: bool -> V, number: string -> V, text: string -> V,
    truthy: V -> bool, nullish: V -> bool,
    strictEqual: (V, V) -> bool, looseEqual: (V, V) -> bool,
    named: (V, string) -> V, keyed: (V, V) -> V)

  // ---- Lexical classes ----

  predicate IsIdentStart(c: char) {
    'A' <= c <= 'Z' || 'a' <= c <= 'z' || c == '_' || c == '$'
  }

  predicate IsIdentPart(c: char) {
    IsIdentStart(c) || IsDigit(c)
  }

  function PartLength(s: string): (n: nat)
    ensures n <= |s| && (forall i :: 0 <= i < n ==> IsIdentPart(s[i])) && (n < |s| ==> !IsIdentPart(s[n]))
  {
    if s == [] || !IsIdentPart(s[0]) then 0 else 1 + PartLength(s[1..])
  }

  /** The length of the match of [A-Za-z_$][A-Za-z0-9_$]* at the start, 0 without one. */
  function IdentLength(s: string): (n: nat)
    ensures n <= |s|
  {
    if s == [] || !IsIdentStart(s[0]) then 0 else PartLength(s)
  }

  /** The length of the match of \d+ at the start, 0 without one. */
  function DigitsLength(s: string): (n: nat)
    ensures n <= |s| && (forall i :: 0 <= i < n ==> IsDigit(s[i])) && (n < |s| ==> !IsDigit(s[n]))
  {
    if s == [] || !IsDigit(s[0]) then 0 else 1 + DigitsLength(s[1..])
  }

  /** What follows a point: an identifier, else digits. */
  function MemberLength(s: string): (n: nat)
    ensures n <= |s|
  {
    if IdentLength(s) > 0 then IdentLength(s) else DigitsLength(s)
  }

  /** /^-?\d+(\.\d+)?$/ */
  predicate IsNumber(s: string) {
    IsDecimal(s) || (s != [] && s[0] == '-' && IsDecimal(s[1..]))
  }

  predicate IsQuoted(s: string) {
    |s| >= 2 && (s[0] == '"' || s[0] == '\'') && s[|s| - 1] == s[0]
  }

  // ---- Bracket depth ----

  function Weight(open: char, close: char, c: char): int {
    if c == open then 1 else if c == close then -1 else 0
  }

  /** Opening brackets minus closing ones. */
  function Depth(open: char, close: char, s: string): int {
    if s == [] then 0 else Depth(open, close, s[..|s| - 1]) + Weight(open, close, s[|s| - 1])
  }

  function Parens(s: string): int { Depth('(', ')', s) }

  function Squares(s: string): int { Depth('[', ']', s) }

  lemma DepthStep(open: char, close: char, s: string, i: nat)
    requires i < |s|
    ensures Depth(open, close, s[..i + 1]) == Depth(open, close, s[..i]) + Weight(open, close, s[i])
  {
    assert s[..i + 1][..i] == s[..i];
  }

  // ---- The three scans ----

  /** The outer parentheses match each other: no earlier one brings the depth back to 0. */
  predicate WrapsWhole(s: string) {
    forall i :: 0 <= i < |s| - 1 && s[i] == ')' ==> Parens(s[..i + 1]) != 0
  }

  predicate Parenthesised(s: string) {
    |s| >= 2 && s[0] == '(' && s[|s| - 1] == ')' && WrapsWhole(s)
  }

  /** An equality operator starts at i: outside brackets, not inside another operator, after something. */
  predicate EqualityAt(s: string, i: nat)
    requires i < |s|
  {
    && Parens(s[..i]) + Squares(s[..i]) == 0
    && (s[i] == '=' || s[i] == '!') && i + 1 < |s| && s[i + 1] == '='
    && !(i > 0 && (s[i - 1] == '=' || s[i - 1] == '!'))
    && Trim(s[..i]) != []
  }

  /** The first equality operator at or after `from`, or |s|. */
  function FirstEquality(s: string, from: nat): (k: nat)
    requires from <= |s|
    ensures from <= k <= |s| && (k < |s| ==> EqualityAt(s, k))
    ensures forall j :: from <= j < k ==> !EqualityAt(s, j)
    decreases |s| - from
  {
    if from == |s| || EqualityAt(s, from) then from else FirstEquality(s, from + 1)
  }

  function OperatorAt(s: string, i: nat): (op: string)
    requires i + 1 < |s|
    ensures 2 <= |op| <= |s| - i
  {
    [s[i]] + if i + 2 < |s| && s[i + 2] == '=' then "==" else "="
  }

  /** The bracket that closes one opened just before `start`: the first ']' back at its depth, or |s|. */
  function CloseBracket(s: string, start: nat, from: nat): (j: nat)
    requires start <= from <= |s|
    ensures from <= j <= |s| && (j < |s| ==> s[j] == ']' && Squares(s[start..j]) == 0)
    ensures forall k :: from <= k < j ==> !(s[k] == ']' && Squares(s[start..k]) == 0)
    decreases |s| - from
  {
    if from == |s| || (s[from] == ']' && Squares(s[start..from]) == 0) then from
    else CloseBracket(s, start, from + 1)
  }

  // ---- The evaluator as a function of the string ----

  predicate Holds<V>(h: Host<V>, op: string, l: V, r: V) {
    if op == "===" then h.strictEqual(l, r)
    else if op == "!==" then !h.strictEqual(l, r)
    else if op == "==" then h.looseEqual(l, r)
    else !h.looseEqual(l, r)
  }

  function Compare<V>(h: Host<V>, op: string, l: V, r: V): V {
    h.bool_(Holds(h, op, l, r))
  }

  function Named<V>(h: Host<V>, v: V, name: string): V {
    if h.nullish(v) then h.undefined else h.named(v, name)
  }

  function Keyed<V>(h: Host<V>, v: V, key: V): V {
    if h.nullish(v) then h.undefined else h.keyed(v, key)
  }

  function ValueOf<V>(h: Host<V>, vals: V, src: string): V
    decreases |src|, 3, 0
  {
    TrimIsTrimmed(src);
    TrimmedValue(h, vals, Trim(src))
  }

  /** On a trimmed string: parentheses, then an equality, then a negation, then an atom. */
  function TrimmedValue<V>(h: Host<V>, vals: V, s: string): V
    decreases |s|, 2, 0
  {
    if s == [] then h.undefined
    else if Parenthesised(s) then ValueOf(h, vals, s[1..|s| - 1])
    else
      var k := FirstEquality(s, 0);
      if k < |s| then
        var op := OperatorAt(s, k);
        Compare(h, op, ValueOf(h, vals, s[..k]), ValueOf(h, vals, s[k + |op|..]))
      else if s[0] == '!' then h.bool_(!h.truthy(ValueOf(h, vals, s[1..])))
      else AtomValue(h, vals, s)
  }

  function AtomValue<V>(h: Host<V>, vals: V, s: string): V
    decreases |s|, 1, 1
  {
    if s == "true" then h.bool_(true)
    else if s == "false" then h.bool_(false)
    else if s == "null" then h.null_
    else if s == "undefined" then h.undefined
    else if IsNumber(s) then h.number(s)
    else if IsQuoted(s) then h.text(s[1..|s| - 1])
    else PathValue(h, vals, s)
  }

  function PathValue<V>(h: Host<V>, vals: V, s: string): V
    decreases |s|, 1, 0
  {
    var n := IdentLength(s);
    if n == 0 then h.undefined else StepsValue(h, vals, Named(h, vals, s[..n]), s, n)
  }

  /** The rest of a path, from position i, applied to the value so far. */
  function StepsValue<V>(h: Host<V>, vals: V, cur: V, s: string, i: nat): V
    requires i <= |s|
    decreases |s|, 0, |s| - i
  {
    if i == |s| then cur
    else if s[i] == '.' then
      var n := MemberLength(s[i + 1..]);
      if n == 0 then h.undefined
      else StepsValue(h, vals, Named(h, cur, s[i + 1..i + 1 + n]), s, i + 1 + n)
    else if s[i] == '[' then
      var j := CloseBracket(s, i + 1, i + 1);
      if j == |s| then h.undefined
      else StepsValue(h, vals, Keyed(h, cur, ValueOf(h, vals, s[i + 1..j])), s, j + 1)
    else h.undefined
  }

  // ---- The loops ----

  method ParensWrapWhole(s: string) returns (r: bool)
    ensures r <==> WrapsWhole(s)
  {
    var depth := 0;
    var i := 0;
    while i < |s| - 1
      invariant i <= |s| && depth == Parens(s[..i])
      invariant forall j :: 0 <= j < i && s[j] == ')' ==> Parens(s[..j + 1]) != 0
    {
      DepthStep('(', ')', s, i);
      if s[i] == '(' {
        depth := depth + 1;
      } else if s[i] == ')' {
        depth := depth - 1;
        if depth == 0 { return false; }
      }
      i := i + 1;
    }
    r := true;
  }

  /** The first top-level equality and its operator. */
  method FindTopLevelEquality(s: string) returns (index: nat, op: string)
    ensures index == FirstEquality(s, 0)
    ensures index < |s| ==> op == OperatorAt(s, index)
  {
    hide Trim, Depth;
    var depth := 0;
    var i := 0;
    FirstFrom(s, 0);
    while i < |s|
      invariant i <= |s| && depth == Parens(s[..i]) + Squares(s[..i])
      invariant FirstEquality(s, 0) == FirstEquality(s, i)
    {
      var c := s[i];
      FirstFrom(s, i);
      DepthStep('(', ')', s, i);
      DepthStep('[', ']', s, i);
      if c == '[' || c == '(' {
        depth := depth + 1;
      } else if c == ']' || c == ')' {
        depth := depth - 1;
      } else if depth == 0 && (c == '=' || c == '!') && i + 1 < |s| && s[i + 1] == '=' {
        if !(i > 0 && (s[i - 1] == '=' || s[i - 1] == '!')) && Trim(s[..i]) != [] {
          op := if i + 2 < |s| && s[i + 2] == '=' then [c] + "==" else [c] + "=";
          return i, op;
        }
      }
      i := i + 1;
    }
    return |s|, "";
  }

  lemma FirstFrom(s: string, i: nat)
    requires i <= |s|
    ensures i == 0 ==> Depth('(', ')', s[..i]) == 0 == Depth('[', ']', s[..i])
    ensures FirstEquality(s, i) == if i == |s| || EqualityAt(s, i) then i else FirstEquality(s, i + 1)
  {
  }

  /** resolve: terminates on every string, with the value of the specification. */
  method Resolve<V>(h: Host<V>, vals: V, src: string) returns (v: V)
    ensures v == ValueOf(h, vals, src)
    decreases |src|, 2, 0
  {
    hide Trim, WrapsWhole, FirstEquality, EqualityAt, AtomValue;
    TrimIsTrimmed(src);
    var expr := Trim(src);
    if expr == [] { return h.undefined; }
    if |expr| > 1 && expr[0] == '(' && expr[|expr| - 1] == ')' {
      var wrapped := ParensWrapWhole(expr);
      if wrapped {
        v := Resolve(h, vals, expr[1..|expr| - 1]);
        return;
      }
    }
    var index, op := FindTopLevelEquality(expr);
    if index < |expr| {
      TopEqualityIsInside(expr, index);
      var lv := Resolve(h, vals, expr[..index]);
      var rv := Resolve(h, vals, expr[index + |op|..]);
      v := Compare(h, op, lv, rv);
      return;
    }
    if expr[0] == '!' {
      var inner := Resolve(h, vals, expr[1..]);
      return h.bool_(!h.truthy(inner));
    }
    v := ResolveAtom(h, vals, expr);
  }

  /** The tail of resolve: literals, and otherwise a path. */
  method ResolveAtom<V>(h: Host<V>, vals: V, expr: string) returns (v: V)
    ensures v == AtomValue(h, vals, expr)
    decreases |expr|, 1, 1
  {
    hide PathValue;
    if expr == "true" { return h.bool_(true); }
    if expr == "false" { return h.bool_(false); }
    if expr == "null" { return h.null_; }
    if expr == "undefined" { return h.undefined; }
    if IsNumber(expr) { return h.number(expr); }
    if IsQuoted(expr) { return h.text(expr[1..|expr| - 1]); }
    v := ResolvePath(h, vals, expr);
  }

  lemma TopEqualityIsInside(s: string, k: nat)
    requires k < |s| && k == FirstEquality(s, 0)
    ensures k + 1 < |s|
  {
  }

  /** resolvePath: the scan along members and bracketed keys. */
  method ResolvePath<V>(h: Host<V>, vals: V, expr: string) returns (v: V)
    ensures v == PathValue(h, vals, expr)
    decreases |expr|, 1, 0
  {
    hide IdentLength, MemberLength, CloseBracket, ValueOf, StepsValue, Named, Keyed;
    var n := IdentLength(expr);
    if n == 0 { return h.undefined; }
    var cur := Named(h, vals, expr[..n]);
    var i := n;
    while i < |expr|
      invariant i <= |expr|
      invariant PathValue(h, vals, expr) == StepsValue(h, vals, cur, expr, i)
    {
      StepsFrom(h, vals, cur, expr, i);
      if expr[i] == '.' {
        var m := MemberLength(expr[i + 1..]);
        if m == 0 { return h.undefined; }
        cur := Named(h, cur, expr[i + 1..i + 1 + m]);
        i := i + 1 + m;
      } else if expr[i] == '[' {
        var j := FindClose(expr, i + 1);
        if j == |expr| { return h.undefined; }
        var key := Resolve(h, vals, expr[i + 1..j]);
        cur := Keyed(h, cur, key);
        i := j + 1;
      } else {
        return h.undefined;
      }
    }
    StepsFrom(h, vals, cur, expr, i);
    v := cur;
  }

  lemma StepsFrom<V>(h: Host<V>, vals: V, cur: V, s: string, i: nat)
    requires i <= |s|
    ensures i == |s| ==> StepsValue(h, vals, cur, s, i) == cur
    ensures i < |s| && s[i] == '.' ==>
              var n := MemberLength(s[i + 1..]);
              StepsValue(h, vals, cur, s, i) ==
              if n == 0 then h.undefined else StepsValue(h, vals, Named(h, cur, s[i + 1..i + 1 + n]), s, i + 1 + n)
    ensures i < |s| && s[i] == '[' ==>
              var j := CloseBracket(s, i + 1, i + 1);
              StepsValue(h, vals, cur, s, i) ==
              if j == |s| then h.undefined
              else StepsValue(h, vals, Keyed(h, cur, ValueOf(h, vals, s[i + 1..j])), s, j + 1)
    ensures i < |s| && s[i] != '.' && s[i] != '[' ==> StepsValue(h, vals, cur, s, i) == h.undefined
  {
    hide MemberLength, CloseBracket, ValueOf, Named, Keyed;
  }

  /** The inner loop of resolvePath: the matching ']', or |s|. */
  method FindClose(s: string, start: nat) returns (j: nat)
    requires start <= |s|
    ensures j == CloseBracket(s, start, start)
  {
    hide Depth;
    var depth := 1;
    j := start;
    CloseFrom(s, start, start);
    while j < |s| && depth > 0
      invariant start <= j <= |s| && depth == 1 + Squares(s[start..j]) && depth > 0
      invariant CloseBracket(s, start, start) == CloseBracket(s, start, j)
    {
      CloseFrom(s, start, j);
      if s[j] == '[' {
        depth := depth + 1;
      } else if s[j] == ']' {
        depth := depth - 1;
        if depth == 0 { break; }
      }
      j := j + 1;
    }
    if j == |s| { CloseFrom(s, start, j); }
  }

  lemma CloseFrom(s: string, start: nat, j: nat)
    requires start <= j <= |s|
    ensures j == start ==> Squares(s[start..j]) == 0
    ensures j < |s| ==> Squares(s[start..j + 1]) == Squares(s[start..j]) + Weight('[', ']', s[j])
    ensures CloseBracket(s, start, j) ==
            if j == |s| || (s[j] == ']' && Squares(s[start..j]) == 0) then j else CloseBracket(s, start, j + 1)
  {
    if j < |s| {
      assert s[start..j + 1][..j - start] == s[start..j];
    }
  }
}

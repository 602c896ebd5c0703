/**
 `importantify`: split a declaration list at its top-level semicolons and mark every declaration
 `!important`.
 */
module CssImportant {
  import opened Wrappers
  import opened Text
  import opened CssScanners

  function Shallower(depth: nat): nat { if depth == 0 then 0 else depth - 1 }

  function Prepend(x: string, ps: seq<string>): seq<string>
    requires ps != []
  {
    [x + ps[0]] + ps[1..]
  }

  /** The pieces of the rest `s` of the text between top-level semicolons, in the given scanner state. */
  function Pieces(name: bool, quote: Option<char>, depth: nat, s: string): (ps: seq<string>)
    ensures ps != []
    decreases |s|
  {
    if s == [] then [[]]
    else
      var c := s[0];
      if quote.Some? then
        if c == '\\' then
          if |s| == 1 then [s] else Prepend(s[..2], Pieces(IsName(s[1]), quote, depth, s[2..]))
        else Prepend([c], Pieces(IsName(c), if c == quote.value then None else quote, depth, s[1..]))
      else if IsQuote(c) then Prepend([c], Pieces(false, Some(c), depth, s[1..]))
      else if c == '(' then Prepend([c], Pieces(false, None, depth + 1, s[1..]))
      else if c == ')' then Prepend([c], Pieces(false, None, Shallower(depth), s[1..]))
      else if c == ';' && depth == 0 then [[]] + Pieces(false, None, 0, s[1..])
      else
        var u := UrlAt(name, s);
        UrlFits(name, s);
        match u
        case NotUrl => Prepend([c], Pieces(IsName(c), None, depth, s[1..]))
        case Unterminated => [s]
        case Terminated(n) => Prepend(s[..n], Pieces(false, None, depth, s[n..]))
  }

  /** /!\s*important$/i */
  predicate EndsImportant(d: string) {
    |d| >= 9 && SameLetters(d[|d| - 9..], "important") &&
    var head := TrimEnd(d[..|d| - 9]);
    head != [] && head[|head| - 1] == '!'
  }

  const MARK := " !important"

  function Finish(d: string): string {
    if EndsImportant(d) then d else d + MARK
  }

  /** Trim the pieces, drop the empty ones and mark the rest. */
  function Emit(ps: seq<string>): seq<string> {
    if ps == [] then []
    else
      var d := Trim(ps[0]);
      (if d == [] then [] else [Finish(d)]) + Emit(ps[1..])
  }

  function Join(ds: seq<string>): string {
    if ds == [] then []
    else if |ds| == 1 then ds[0]
    else ds[0] + ";" + Join(ds[1..])
  }

  function Declarations(css: string): seq<string> {
    Emit(Pieces(false, None, 0, StripComments(css)))
  }

  function Importantify(css: string): string {
    Join(Declarations(css))
  }

  lemma JoinPrepended(x: string, ps: seq<string>)
    requires ps != []
    ensures Join(Prepend(x, ps)) == x + Join(ps)
  {
    var qs := Prepend(x, ps);
    if |ps| > 1 {
      assert qs[1..] == ps[1..];
      assert x + ps[0] + ";" + Join(ps[1..]) == x + (ps[0] + ";" + Join(ps[1..]));
    }
  }

  /** Splitting loses nothing: the pieces, joined by semicolons again, are the text. */
  lemma {:induction false} PiecesRejoin(name: bool, quote: Option<char>, depth: nat, s: string)
    ensures Join(Pieces(name, quote, depth, s)) == s
    decreases |s|
  {
    hide IsName, UrlAt, Join;
    if s == [] {
      OnePiece(s);
    } else {
      var c := s[0];
      assert s == [c] + s[1..];
      if quote.Some? {
        if c == '\\' {
          if |s| == 1 {
            OnePiece(s);
          } else {
            assert s == s[..2] + s[2..];
            PiecesRejoin(IsName(s[1]), quote, depth, s[2..]);
            JoinPrepended(s[..2], Pieces(IsName(s[1]), quote, depth, s[2..]));
          }
        } else {
          var q := if c == quote.value then None else quote;
          PiecesRejoin(IsName(c), q, depth, s[1..]);
          JoinPrepended([c], Pieces(IsName(c), q, depth, s[1..]));
        }
      } else if IsQuote(c) || c == '(' || c == ')' {
        var q := if IsQuote(c) then Some(c) else None;
        var k := if c == '(' then depth + 1 else if c == ')' then Shallower(depth) else depth;
        PiecesRejoin(false, q, k, s[1..]);
        JoinPrepended([c], Pieces(false, q, k, s[1..]));
      } else if c == ';' && depth == 0 {
        PiecesRejoin(false, None, 0, s[1..]);
        EmptyFirst(Pieces(false, None, 0, s[1..]));
      } else {
        UrlFits(name, s);
        match UrlAt(name, s) {
          case NotUrl =>
            PiecesRejoin(IsName(c), None, depth, s[1..]);
            JoinPrepended([c], Pieces(IsName(c), None, depth, s[1..]));
          case Unterminated => OnePiece(s);
          case Terminated(n) =>
            assert s == s[..n] + s[n..];
            PiecesRejoin(false, None, depth, s[n..]);
            JoinPrepended(s[..n], Pieces(false, None, depth, s[n..]));
        }
      }
    }
  }

  lemma OnePiece(s: string)
    ensures Join([s]) == s
  {
  }

  lemma EmptyFirst(ps: seq<string>)
    requires ps != []
    ensures Join([[]] + ps) == ";" + Join(ps)
  {
    assert ([[]] + ps)[1..] == ps;
  }

  // ---- The source's loop ----

  /** The pieces still to come at `i`, the first one having begun at `start`. */
  function PiecesFrom(css: string, start: nat, i: nat, quote: Option<char>, depth: nat): seq<string>
    requires start <= i <= |css|
  {
    Prepend(css[start..i], Pieces(NameBefore(css, i), quote, depth, css[i..]))
  }

  lemma PrependTwice(x: string, y: string, ps: seq<string>)
    requires ps != []
    ensures Prepend(x, Prepend(y, ps)) == Prepend(x + y, ps)
  {
    assert x + (y + ps[0]) == x + y + ps[0];
  }

  lemma Moves(css: string, start: nat, i: nat, next: nat, q: Option<char>, d: nat, q': Option<char>, d': nat)
    requires start <= i < next <= |css|
    requires Pieces(NameBefore(css, i), q, d, css[i..]) ==
             Prepend(css[i..next], Pieces(NameBefore(css, next), q', d', css[next..]))
    ensures PiecesFrom(css, start, i, q, d) == PiecesFrom(css, start, next, q', d')
  {
    PrependTwice(css[start..i], css[i..next], Pieces(NameBefore(css, next), q', d', css[next..]));
    assert css[start..i] + css[i..next] == css[start..next];
  }

  lemma QuotedMove(css: string, start: nat, i: nat, q: Option<char>, d: nat)
    requires start <= i < |css| && q.Some?
    ensures var next := if css[i] == '\\' && i + 1 < |css| then i + 2 else i + 1;
            var q' := if css[i] != '\\' && css[i] == q.value then None else q;
            PiecesFrom(css, start, i, q, d) == PiecesFrom(css, start, next, q', d)
  {
    hide IsName;
    var s := css[i..];
    assert s[1..] == css[i + 1..] && [s[0]] == css[i..i + 1];
    if css[i] == '\\' && i + 1 < |css| {
      assert s[..2] == css[i..i + 2] && s[2..] == css[i + 2..];
      Moves(css, start, i, i + 2, q, d, q, d);
    } else {
      if css[i] == '\\' {
        assert s == [css[i]] && [css[i]] + [] == s && css[i + 1..] == [];
      }
      Moves(css, start, i, i + 1, q, d, if css[i] != '\\' && css[i] == q.value then None else q, d);
    }
  }

  lemma PunctuationMove(css: string, start: nat, i: nat, d: nat)
    requires start <= i < |css| && (IsQuote(css[i]) || css[i] == '(' || css[i] == ')')
    ensures var q' := if IsQuote(css[i]) then Some(css[i]) else None;
            var d' := if css[i] == '(' then d + 1 else if css[i] == ')' then Shallower(d) else d;
            PiecesFrom(css, start, i, None, d) == PiecesFrom(css, start, i + 1, q', d')
  {
    var s := css[i..];
    assert s[1..] == css[i + 1..] && [s[0]] == css[i..i + 1];
    Moves(css, start, i, i + 1, None, d, if IsQuote(css[i]) then Some(css[i]) else None,
          if css[i] == '(' then d + 1 else if css[i] == ')' then Shallower(d) else d);
  }

  lemma SemicolonMove(css: string, start: nat, i: nat)
    requires start <= i < |css| && css[i] == ';'
    ensures PiecesFrom(css, start, i, None, 0) == [css[start..i]] + PiecesFrom(css, i + 1, i + 1, None, 0)
  {
    var s := css[i..];
    assert s[1..] == css[i + 1..] && css[i + 1..i + 1] == "";
    assert css[start..i] + [] == css[start..i];
    var rest := Pieces(false, None, 0, css[i + 1..]);
    assert Prepend("", rest) == rest by { assert "" + rest[0] == rest[0]; }
  }

  predicate IsOther(c: char, depth: nat) {
    !IsQuote(c) && c != '(' && c != ')' && !(c == ';' && depth == 0)
  }

  lemma OtherMove(css: string, start: nat, i: nat, d: nat)
    requires start <= i < |css| && IsOther(css[i], d)
    ensures var u := UrlAt(NameBefore(css, i), css[i..]);
            match u
            case NotUrl => PiecesFrom(css, start, i, None, d) == PiecesFrom(css, start, i + 1, None, d)
            case Unterminated => PiecesFrom(css, start, i, None, d) == PiecesFrom(css, start, |css|, None, d)
            case Terminated(n) =>
              i < i + n <= |css| && PiecesFrom(css, start, i, None, d) == PiecesFrom(css, start, i + n, None, d)
  {
    hide UrlAt, NameBefore, PiecesFrom, Pieces;
    match UrlAt(NameBefore(css, i), css[i..])
    case NotUrl => CharMove(css, start, i, d);
    case Unterminated => OpenUrlMove(css, start, i, d);
    case Terminated(n) => UrlMove(css, start, i, d);
  }

  lemma CharMove(css: string, start: nat, i: nat, d: nat)
    requires start <= i < |css| && IsOther(css[i], d) && UrlAt(NameBefore(css, i), css[i..]).NotUrl?
    ensures PiecesFrom(css, start, i, None, d) == PiecesFrom(css, start, i + 1, None, d)
  {
    hide UrlAt;
    var s := css[i..];
    assert s[1..] == css[i + 1..] && [s[0]] == css[i..i + 1];
    Moves(css, start, i, i + 1, None, d, None, d);
  }

  lemma OpenUrlMove(css: string, start: nat, i: nat, d: nat)
    requires start <= i < |css| && IsOther(css[i], d) && UrlAt(NameBefore(css, i), css[i..]).Unterminated?
    ensures PiecesFrom(css, start, i, None, d) == PiecesFrom(css, start, |css|, None, d)
  {
    hide UrlAt;
    var s := css[i..];
    assert css[i..|css|] == s && s + [] == s;
    Moves(css, start, i, |css|, None, d, None, d);
  }

  lemma UrlMove(css: string, start: nat, i: nat, d: nat)
    requires start <= i < |css| && IsOther(css[i], d) && UrlAt(NameBefore(css, i), css[i..]).Terminated?
    ensures var n := UrlAt(NameBefore(css, i), css[i..]).n;
            i < i + n <= |css| && PiecesFrom(css, start, i, None, d) == PiecesFrom(css, start, i + n, None, d)
  {
    hide UrlAt;
    var s := css[i..];
    UrlFits(NameBefore(css, i), s);
    var n := UrlAt(NameBefore(css, i), s).n;
    assert s[..n] == css[i..i + n] && s[n..] == css[i + n..] && css[i + n - 1] == s[n - 1] == ')';
    Moves(css, start, i, i + n, None, d, None, d);
  }

  lemma AllAhead(css: string)
    ensures PiecesFrom(css, 0, 0, None, 0) == Pieces(false, None, 0, css)
  {
    var all := Pieces(false, None, 0, css);
    assert css[0..] == css && "" + all[0] == all[0] && css[0..0] == "";
  }

  /** One turn of the source's loop: where it goes on, in which state, and whether it cuts at a semicolon. */
  method SplitTurn(css: string, ghost start: nat, i: nat, quote: Option<char>, depth: nat)
    returns (next: nat, quote': Option<char>, depth': nat, cut: bool)
    requires start <= i < |css|
    ensures i < next <= |css|
    ensures if cut then
              && next == i + 1 && quote' == None && depth' == 0
              && PiecesFrom(css, start, i, quote, depth) == [css[start..i]] + PiecesFrom(css, next, next, None, 0)
            else PiecesFrom(css, start, i, quote, depth) == PiecesFrom(css, start, next, quote', depth')
  {
    hide PiecesFrom, UrlAt, NameBefore;
    var c := css[i];
    next, quote', depth', cut := i + 1, quote, depth, false;
    if quote.Some? {
      QuotedMove(css, start, i, quote, depth);
      if c == '\\' {
        if i + 1 < |css| { next := i + 2; }
      } else if c == quote.value {
        quote' := None;
      }
    } else if IsQuote(c) || c == '(' || c == ')' {
      PunctuationMove(css, start, i, depth);
      if IsQuote(c) { quote' := Some(c); }
      else if c == '(' { depth' := depth + 1; }
      else { depth' := Shallower(depth); }
    } else if c == ';' && depth == 0 {
      SemicolonMove(css, start, i);
      cut := true;
    } else {
      OtherMove(css, start, i, depth);
      var end := ScanUnquotedUrl(css, i);
      if end != -1 { next := end; }
    }
  }

  /** The source's index loop: the text between top-level semicolons. */
  method SplitDeclarations(css: string) returns (decls: seq<string>)
    ensures decls == Pieces(false, None, 0, css)
  {
    hide *;
    decls := [];
    var start, depth, i := 0, 0, 0;
    var quote: Option<char> := None;
    AllAhead(css);
    while i < |css|
      invariant 0 <= start <= i <= |css|
      invariant decls + PiecesFrom(css, start, i, quote, depth) == Pieces(false, None, 0, css)
      decreases |css| - i
    {
      var next, quote', depth', cut := SplitTurn(css, start, i, quote, depth);
      if cut {
        Regroup(decls, css[start..i], PiecesFrom(css, next, next, None, 0));
        decls := decls + [css[start..i]];
        start := next;
      }
      i, quote, depth := next, quote', depth';
    }
    LastMove(css, start, quote, depth);
    decls := decls + [css[start..]];
  }

  /** importantify: the loop, then trim, drop the empty ones, mark and join. */
  method ImportantifyLoop(input: string) returns (out: string)
    ensures out == Importantify(input)
  {
    hide Pieces, Join, Emit, StripComments;
    var css := StripCommentsLoop(input);
    var decls := SplitDeclarations(css);
    out := Join(Emit(decls));
  }

  lemma Regroup(a: seq<string>, x: string, b: seq<string>)
    ensures a + ([x] + b) == a + [x] + b
  {
  }

  lemma LastMove(css: string, start: nat, quote: Option<char>, depth: nat)
    requires start <= |css|
    ensures PiecesFrom(css, start, |css|, quote, depth) == [css[start..]]
  {
    assert css[start..|css|] + [] == css[start..];
  }

  // ---- Pieces that scan on their own ----

  /**
   Scanning `d` alone, from the given state, splits nowhere and meets no comment; unless it is the
   last piece, it also ends outside quotes, parentheses and urls.
   */
  predicate Scans(last: bool, name: bool, quote: Option<char>, depth: nat, d: string)
    decreases |d|
  {
    if d == [] then last || (quote.None? && depth == 0)
    else
      var c := d[0];
      if quote.Some? then
        if c == '\\' then
          if |d| == 1 then last else Scans(last, IsName(d[1]), quote, depth, d[2..])
        else Scans(last, IsName(c), if c == quote.value then None else quote, depth, d[1..])
      else if IsQuote(c) then Scans(last, false, Some(c), depth, d[1..])
      else if c == '(' then Scans(last, false, None, depth + 1, d[1..])
      else if c == ')' then Scans(last, false, None, Shallower(depth), d[1..])
      else if c == ';' && depth == 0 then false
      else if c == '/' && |d| >= 2 && d[1] == '*' then false
      else
        var u := UrlAt(name, d);
        UrlFits(name, d);
        match u
        case NotUrl => Scans(last, IsName(c), None, depth, d[1..])
        case Unterminated => last
        case Terminated(n) => Scans(last, false, None, depth, d[n..])
  }

  lemma {:induction false} ClosedIsOpen(name: bool, quote: Option<char>, depth: nat, d: string)
    requires Scans(false, name, quote, depth, d)
    ensures Scans(true, name, quote, depth, d)
    decreases |d|
  {
    hide IsName, UrlAt;
    if d != [] {
      var c := d[0];
      if quote.Some? {
        if c == '\\' {
          ClosedIsOpen(IsName(d[1]), quote, depth, d[2..]);
        } else {
          ClosedIsOpen(IsName(c), if c == quote.value then None else quote, depth, d[1..]);
        }
      } else if IsQuote(c) {
        ClosedIsOpen(false, Some(c), depth, d[1..]);
      } else if c == '(' {
        ClosedIsOpen(false, None, depth + 1, d[1..]);
      } else if c == ')' {
        ClosedIsOpen(false, None, Shallower(depth), d[1..]);
      } else {
        UrlFits(name, d);
        match UrlAt(name, d) {
          case NotUrl => ClosedIsOpen(IsName(c), None, depth, d[1..]);
          case Terminated(n) => ClosedIsOpen(false, None, depth, d[n..]);
        }
      }
    }
  }

  /** A piece that scans as the last one is one piece, without comments. */
  lemma {:induction false} LastPiece(name: bool, quote: Option<char>, depth: nat, d: string)
    requires Scans(true, name, quote, depth, d)
    ensures Pieces(name, quote, depth, d) == [d] && NoComment(name, quote, d)
    decreases |d|
  {
    hide IsName, UrlAt;
    if d != [] {
      var c := d[0];
      assert d == [c] + d[1..];
      if quote.Some? {
        if c == '\\' {
          if |d| > 1 {
            LastPiece(IsName(d[1]), quote, depth, d[2..]);
            assert d == d[..2] + d[2..];
          }
        } else {
          LastPiece(IsName(c), if c == quote.value then None else quote, depth, d[1..]);
        }
      } else if IsQuote(c) {
        LastPiece(false, Some(c), depth, d[1..]);
      } else if c == '(' {
        LastPiece(false, None, depth + 1, d[1..]);
        PlainPunctuation(name, d);
      } else if c == ')' {
        LastPiece(false, None, Shallower(depth), d[1..]);
        PlainPunctuation(name, d);
      } else {
        UrlFits(name, d);
        match UrlAt(name, d) {
          case NotUrl => LastPiece(IsName(c), None, depth, d[1..]);
          case Unterminated =>
          case Terminated(n) =>
            LastPiece(false, None, depth, d[n..]);
            assert d == d[..n] + d[n..];
        }
      }
    }
  }

  lemma PlainPunctuation(name: bool, d: string)
    requires d != [] && (d[0] == '(' || d[0] == ')' || d[0] == ';')
    ensures UrlAt(name, d).NotUrl? && !IsName(d[0])
  {
    UrlFits(name, d);
  }

  lemma {:induction false} QuoteKeepsFollowing(s: string, t: string)
    requires QuoteFollows(s)
    ensures QuoteFollows(s + t)
  {
    if IsSpace(s[0]) {
      QuoteKeepsFollowing(s[1..], t);
      assert (s + t)[1..] == s[1..] + t;
    }
  }

  /** No url starts where a semicolon comes before its letters could be complete. */
  lemma SemicolonStopsUrl(name: bool, d: string, t: string)
    requires UrlAt(name, d).NotUrl? && d != []
    ensures UrlAt(name, d + ";" + t).NotUrl?
  {
    hide QuoteFollows, UrlAt;
    var s := d + ";" + t;
    UrlLetters(name, d);
    UrlLetters(name, s);
    if |d| >= 4 {
      assert s[0] == d[0] && s[1] == d[1] && s[2] == d[2] && s[3] == d[3] && s[4..] == d[4..] + (";" + t);
      if QuoteFollows(d[4..]) { QuoteKeepsFollowing(d[4..], ";" + t); }
    } else {
      assert s[|d|] == ';';
    }
  }

  /** A closed piece ends at the semicolon after it, and the scan starts afresh behind it. */
  lemma {:induction false} ClosedPiece(name: bool, quote: Option<char>, depth: nat, d: string, t: string)
    requires Scans(false, name, quote, depth, d)
    ensures Pieces(name, quote, depth, d + ";" + t) == [d] + Pieces(false, None, 0, t)
    ensures NoComment(name, quote, d + ";" + t) == NoComment(false, None, t)
    decreases |d|, 1
  {
    hide IsName, UrlAt;
    var s := d + ";" + t;
    if d == [] {
      assert s[0] == ';' && s[1..] == t;
      PlainPunctuation(name, s);
    } else {
      var c := d[0];
      assert s[0] == c && s[1..] == d[1..] + ";" + t && d == [c] + d[1..];
      if quote.Some? {
        if c == '\\' {
          assert s[..2] == d[..2] && s[1] == d[1] && s[2..] == d[2..] + ";" + t && d == d[..2] + d[2..];
          ClosedPiece(IsName(d[1]), quote, depth, d[2..], t);
        } else {
          ClosedPiece(IsName(c), if c == quote.value then None else quote, depth, d[1..], t);
        }
      } else if IsQuote(c) {
        ClosedPiece(false, Some(c), depth, d[1..], t);
      } else if c == '(' || c == ')' {
        ClosedPiece(false, None, if c == '(' then depth + 1 else Shallower(depth), d[1..], t);
        PlainPunctuation(name, s);
      } else {
        UrlFits(name, d);
        if UrlAt(name, d).NotUrl? {
          ClosedPieceChar(name, depth, d, t);
        } else {
          ClosedPieceUrl(name, depth, d, t);
        }
      }
    }
  }

  lemma ClosedPieceChar(name: bool, depth: nat, d: string, t: string)
    requires Scans(false, name, None, depth, d) && d != [] && !IsQuote(d[0]) && d[0] != '(' && d[0] != ')'
    requires UrlAt(name, d).NotUrl?
    ensures Pieces(name, None, depth, d + ";" + t) == [d] + Pieces(false, None, 0, t)
    ensures NoComment(name, None, d + ";" + t) == NoComment(false, None, t)
    decreases |d|, 0
  {
    hide IsName, UrlAt;
    var s := d + ";" + t;
    var c := d[0];
    assert s[0] == c && s[1..] == d[1..] + ";" + t && d == [c] + d[1..];
    SemicolonStopsUrl(name, d, t);
    ClosedPiece(IsName(c), None, depth, d[1..], t);
    assert s[1] == if |d| > 1 then d[1] else ';';
  }

  lemma ClosedPieceUrl(name: bool, depth: nat, d: string, t: string)
    requires Scans(false, name, None, depth, d) && d != [] && !IsQuote(d[0]) && d[0] != '(' && d[0] != ')'
    requires !UrlAt(name, d).NotUrl?
    ensures Pieces(name, None, depth, d + ";" + t) == [d] + Pieces(false, None, 0, t)
    ensures NoComment(name, None, d + ";" + t) == NoComment(false, None, t)
    decreases |d|, 0
  {
    hide IsName, UrlAt;
    var s := d + ";" + t;
    UrlFits(name, d);
    var n := UrlAt(name, d).n;
    TokenStandsAlone(name, d, n, d[n..] + ";" + t);
    assert s == d[..n] + (d[n..] + ";" + t);
    assert s[0] == d[0] && s[1] == d[1] && s[..n] == d[..n] && s[n..] == d[n..] + ";" + t && d == d[..n] + d[n..];
    ClosedPiece(false, None, depth, d[n..], t);
  }

  // ---- One more harmless character ----

  /** White space, and the characters of the mark. */
  predicate Harmless(x: char) {
    !IsQuote(x) && x != '/' && x != '*' && x != '(' && x != ')' && x != ';' && x != '\\'
  }

  lemma {:induction false} BodyOneMore(s: string, x: char)
    requires x != ')'
    ensures UrlBody(s + [x]) == UrlBody(s)
    decreases |s|
  {
    if s == [] {
      assert (s + [x])[1..] == [];
    } else if s[0] != ')' {
      var k := if s[0] == '\\' then 2 else 1;
      if k <= |s| {
        BodyOneMore(s[k..], x);
        assert (s + [x])[k..] == s[k..] + [x];
      } else {
        assert (s + [x])[2..] == [];
      }
    }
  }

  lemma {:induction false} QuoteOneMore(s: string, x: char)
    requires !IsQuote(x)
    ensures QuoteFollows(s + [x]) == QuoteFollows(s)
  {
    if s == [] {
      assert (s + [x])[1..] == [];
    } else {
      QuoteOneMore(s[1..], x);
      assert (s + [x])[1..] == s[1..] + [x];
    }
  }

  lemma UrlOneMore(name: bool, d: string, x: char)
    requires Harmless(x)
    ensures UrlAt(name, d + [x]) == UrlAt(name, d)
  {
    UrlLetters(name, d);
    UrlLetters(name, d + [x]);
    if |d| >= 4 {
      assert (d + [x])[4..] == d[4..] + [x] && (d + [x])[..4] == d[..4];
      QuoteOneMore(d[4..], x);
      BodyOneMore(d[4..], x);
    }
  }

  /** Adding or dropping a harmless last character changes nothing about how a piece scans. */
  lemma {:induction false} OneMore(last: bool, name: bool, quote: Option<char>, depth: nat, d: string, x: char)
    requires Harmless(x) && (quote.Some? ==> IsQuote(quote.value))
    ensures Scans(last, name, quote, depth, d + [x]) == Scans(last, name, quote, depth, d)
    decreases |d|
  {
    hide IsName, UrlAt;
    var s := d + [x];
    if d == [] {
      assert s[1..] == [];
      UrlOneMore(name, d, x);
      TooShort(name);
    } else {
      var c := d[0];
      assert s[0] == c && s[1..] == d[1..] + [x];
      if quote.Some? {
        if c == '\\' {
          if |d| > 1 {
            assert s[2..] == d[2..] + [x] && s[1] == d[1];
            OneMore(last, IsName(d[1]), quote, depth, d[2..], x);
          } else {
            assert s[2..] == [];
          }
        } else {
          OneMore(last, IsName(c), if c == quote.value then None else quote, depth, d[1..], x);
        }
      } else if IsQuote(c) {
        OneMore(last, false, Some(c), depth, d[1..], x);
      } else if c == '(' || c == ')' {
        OneMore(last, false, None, if c == '(' then depth + 1 else Shallower(depth), d[1..], x);
      } else {
        UrlOneMore(name, d, x);
        UrlFits(name, d);
        assert s[1] == if |d| > 1 then d[1] else x;
        match UrlAt(name, d) {
          case NotUrl => OneMore(last, IsName(c), None, depth, d[1..], x);
          case Unterminated =>
          case Terminated(n) =>
            assert s[n..] == d[n..] + [x];
            OneMore(last, false, None, depth, d[n..], x);
        }
      }
    }
  }

  lemma TooShort(name: bool)
    ensures UrlAt(name, []).NotUrl?
  {
  }

  lemma {:induction false} ManyMore(last: bool, d: string, tail: string)
    requires forall i :: 0 <= i < |tail| ==> Harmless(tail[i])
    ensures Scans(last, false, None, 0, d + tail) == Scans(last, false, None, 0, d)
    decreases |tail|
  {
    hide Scans, Harmless;
    if tail == [] {
      assert d + tail == d;
    } else {
      var n := |tail| - 1;
      assert d + tail == d + tail[..n] + [tail[n]];
      OneMore(last, false, None, 0, d + tail[..n], tail[n]);
      ManyMore(last, d, tail[..n]);
    }
  }

  lemma SpaceIsHarmless(c: char)
    requires IsSpace(c)
    ensures Harmless(c)
  {
  }

  lemma {:induction false} TrimmedScans(last: bool, d: string)
    requires Scans(last, false, None, 0, d)
    ensures Scans(last, false, None, 0, Trim(d))
    decreases |d|
  {
    if d != [] && IsSpace(d[0]) {
      SpaceIsPlain(d[0]);
      UrlFits(false, d);
      TrimmedScans(last, d[1..]);
    } else {
      TrimmedEndScans(last, d);
    }
  }

  lemma {:induction false} TrimmedEndScans(last: bool, d: string)
    requires Scans(last, false, None, 0, d)
    ensures Scans(last, false, None, 0, TrimEnd(d))
    decreases |d|
  {
    hide Scans;
    if d != [] && IsSpace(d[|d| - 1]) {
      var n := |d| - 1;
      assert d == d[..n] + [d[n]];
      SpaceIsHarmless(d[n]);
      OneMore(last, false, None, 0, d[..n], d[n]);
      TrimmedEndScans(last, d[..n]);
    }
  }

  // ---- From pieces to declarations and back ----

  /** A url that starts in a piece is seen from the piece alone. */
  lemma {:induction false} QuoteInPiece(s: string, n: nat)
    requires QuoteFollows(s) && n <= |s| && (n < |s| ==> s[n] == ';')
    ensures QuoteFollows(s[..n])
  {
    if n == 0 {
      SemicolonIsNoSpace();
    } else if IsSpace(s[0]) {
      QuoteInPiece(s[1..], n - 1);
      assert s[..n][1..] == s[1..][..n - 1];
    }
  }

  lemma SemicolonIsNoSpace()
    ensures !IsSpace(';') && !IsQuote(';')
  {
  }

  lemma NoUrlInPiece(name: bool, s: string, n: nat)
    requires UrlAt(name, s).NotUrl? && 0 < n <= |s| && (n < |s| ==> s[n] == ';')
    ensures UrlAt(name, s[..n]).NotUrl?
  {
    hide UrlAt, QuoteFollows;
    UrlLetters(name, s);
    UrlLetters(name, s[..n]);
    if n >= 4 {
      assert s[..n][4..] == s[4..][..n - 4];
      if QuoteFollows(s[4..]) { QuoteInPiece(s[4..], n - 4); }
    }
  }

  /** `p` is `s` up to its end, or up to a semicolon. */
  ghost predicate EndsAtSemicolon(p: string, s: string) {
    p <= s && (|p| < |s| ==> s[|p|] == ';')
  }

  lemma LongerPrefix(s: string, n: nat, p: string)
    requires n <= |s| && EndsAtSemicolon(p, s[n..])
    ensures EndsAtSemicolon(s[..n] + p, s)
  {
    assert s == s[..n] + s[n..];
  }

  /** The first piece is the text up to its end or up to a semicolon. */
  lemma {:induction false} FirstPieceIsPrefix(name: bool, quote: Option<char>, depth: nat, s: string)
    ensures EndsAtSemicolon(Pieces(name, quote, depth, s)[0], s)
    decreases |s|
  {
    hide IsName, UrlAt, EndsAtSemicolon;
    if s == [] {
      WholeText(s);
    } else {
      var c := s[0];
      assert s[..1] == [c];
      if quote.Some? && c == '\\' {
        if |s| > 1 {
          FirstPieceIsPrefix(IsName(s[1]), quote, depth, s[2..]);
          LongerPrefix(s, 2, Pieces(IsName(s[1]), quote, depth, s[2..])[0]);
        } else {
          WholeText(s);
        }
      } else if quote.Some? {
        var q := if c == quote.value then None else quote;
        FirstPieceIsPrefix(IsName(c), q, depth, s[1..]);
        LongerPrefix(s, 1, Pieces(IsName(c), q, depth, s[1..])[0]);
      } else if IsQuote(c) || c == '(' || c == ')' {
        var q := if IsQuote(c) then Some(c) else None;
        var k := if c == '(' then depth + 1 else if c == ')' then Shallower(depth) else depth;
        FirstPieceIsPrefix(false, q, k, s[1..]);
        LongerPrefix(s, 1, Pieces(false, q, k, s[1..])[0]);
      } else if c == ';' && depth == 0 {
        NoText(s);
      } else {
        UrlFits(name, s);
        match UrlAt(name, s) {
          case NotUrl =>
            FirstPieceIsPrefix(IsName(c), None, depth, s[1..]);
            LongerPrefix(s, 1, Pieces(IsName(c), None, depth, s[1..])[0]);
          case Unterminated => WholeText(s);
          case Terminated(n) =>
            FirstPieceIsPrefix(false, None, depth, s[n..]);
            LongerPrefix(s, n, Pieces(false, None, depth, s[n..])[0]);
        }
      }
    }
  }

  lemma WholeText(s: string)
    ensures EndsAtSemicolon(s, s)
  {
  }

  lemma NoText(s: string)
    requires s != [] && s[0] == ';'
    ensures EndsAtSemicolon([], s)
  {
  }

  /** Of comment-free text, all pieces but the last are closed, and the last scans to its end. */
  ghost predicate PiecesScan(ps: seq<string>, name: bool, quote: Option<char>, depth: nat)
    requires ps != []
  {
    && Scans(|ps| == 1, name, quote, depth, ps[0])
    && forall i :: 1 <= i < |ps| ==> Scans(i == |ps| - 1, false, None, 0, ps[i])
  }

  lemma {:induction false} PiecesOfText(name: bool, quote: Option<char>, depth: nat, s: string)
    requires NoComment(name, quote, s)
    ensures PiecesScan(Pieces(name, quote, depth, s), name, quote, depth)
    decreases |s|, 1
  {
    hide IsName, UrlAt;
    if s == [] {
    } else if quote.Some? {
      PiecesInQuote(name, quote, depth, s);
    } else {
      var c := s[0];
      if IsQuote(c) || c == '(' || c == ')' {
        var q := if IsQuote(c) then Some(c) else None;
        var k := if c == '(' then depth + 1 else if c == ')' then Shallower(depth) else depth;
        if c == '(' || c == ')' { PlainPunctuation(name, s); }
        PiecesOfText(false, q, k, s[1..]);
        assert Pieces(name, quote, depth, s)[0][1..] == Pieces(false, q, k, s[1..])[0];
      } else if c == ';' && depth == 0 {
        PlainPunctuation(name, s);
        PiecesOfText(false, None, 0, s[1..]);
      } else {
        UrlFits(name, s);
        match UrlAt(name, s) {
          case NotUrl => PiecesAfterChar(name, depth, s);
          case Unterminated =>
          case Terminated(n) => PiecesAfterUrl(name, depth, s);
        }
      }
    }
  }

  lemma PiecesInQuote(name: bool, quote: Option<char>, depth: nat, s: string)
    requires NoComment(name, quote, s) && quote.Some? && s != []
    ensures PiecesScan(Pieces(name, quote, depth, s), name, quote, depth)
    decreases |s|, 0
  {
    hide IsName, UrlAt;
    var c := s[0];
    var p := Pieces(name, quote, depth, s)[0];
    if c == '\\' {
      if |s| > 1 {
        PiecesOfText(IsName(s[1]), quote, depth, s[2..]);
        assert p[2..] == Pieces(IsName(s[1]), quote, depth, s[2..])[0];
      }
    } else {
      var q := if c == quote.value then None else quote;
      PiecesOfText(IsName(c), q, depth, s[1..]);
      assert p[1..] == Pieces(IsName(c), q, depth, s[1..])[0];
    }
  }

  lemma PiecesAfterChar(name: bool, depth: nat, s: string)
    requires NoComment(name, None, s) && s != [] && IsOther(s[0], depth) && UrlAt(name, s).NotUrl?
    ensures PiecesScan(Pieces(name, None, depth, s), name, None, depth)
    decreases |s|, 0
  {
    hide IsName, UrlAt;
    var c := s[0];
    FirstPieceIsPrefix(name, None, depth, s);
    var p := Pieces(name, None, depth, s)[0];
    PiecesOfText(IsName(c), None, depth, s[1..]);
    assert p[1..] == Pieces(IsName(c), None, depth, s[1..])[0];
    NoUrlInPiece(name, s, |p|);
    assert p == s[..|p|] && p[0] == c && (|p| >= 2 ==> p[1] == s[1]);
  }

  lemma PiecesAfterUrl(name: bool, depth: nat, s: string)
    requires NoComment(name, None, s) && s != [] && IsOther(s[0], depth) && UrlAt(name, s).Terminated?
    ensures PiecesScan(Pieces(name, None, depth, s), name, None, depth)
    decreases |s|, 0
  {
    hide IsName, UrlAt;
    UrlFits(name, s);
    var n := UrlAt(name, s).n;
    PiecesOfText(false, None, depth, s[n..]);
    var p := Pieces(name, None, depth, s)[0];
    var rest := Pieces(false, None, depth, s[n..])[0];
    assert p == s[..n] + rest && p[n..] == rest;
    TokenStandsAlone(name, s, n, rest);
    assert p[0] == s[0] && p[1] == s[1];
  }

  lemma MarkEnds(d: string)
    ensures EndsImportant(d + MARK)
  {
    var m := d + MARK;
    assert m[|m| - 9..] == "important" && m[..|m| - 9] == d + " !";
    assert (d + " !")[|d + " !"| - 1] == '!';
  }

  /** A finished declaration: trimmed, marked, and scanning as its piece did. */
  ghost predicate Finished(last: bool, d: string) {
    d != [] && IsTrimmed(d) && EndsImportant(d) && Scans(last, false, None, 0, d)
  }

  lemma FinishIsFinished(last: bool, p: string)
    requires Scans(last, false, None, 0, p) && Trim(p) != []
    ensures Finished(last, Finish(Trim(p)))
  {
    var d := Trim(p);
    TrimmedScans(last, p);
    TrimIsTrimmed(p);
    hide Scans, EndsImportant, IsSpace, Trim;
    if !EndsImportant(d) {
      MarkEnds(d);
      MarkIsHarmless();
      ManyMore(last, d, MARK);
      assert (d + MARK)[0] == d[0] && (d + MARK)[|d + MARK| - 1] == 't';
    }
  }

  lemma MarkIsHarmless()
    ensures forall i :: 0 <= i < |MARK| ==> Harmless(MARK[i])
    ensures !IsSpace('t')
  {
  }

  ghost predicate AllFinished(ds: seq<string>) {
    forall i :: 0 <= i < |ds| ==> Finished(i == |ds| - 1, ds[i])
  }

  lemma OpenFinished(d: string)
    requires Finished(false, d)
    ensures Finished(true, d)
  {
    ClosedIsOpen(false, None, 0, d);
  }

  lemma {:induction false} EmitFinishes(ps: seq<string>)
    requires forall i :: 0 <= i < |ps| ==> Scans(i == |ps| - 1, false, None, 0, ps[i])
    ensures AllFinished(Emit(ps))
  {
    hide Scans, Finished;
    if ps != [] {
      forall i | 0 <= i < |ps[1..]| ensures Scans(i == |ps[1..]| - 1, false, None, 0, ps[1..][i]) {
        assert ps[1..][i] == ps[i + 1];
      }
      EmitFinishes(ps[1..]);
      if Trim(ps[0]) != [] {
        FinishIsFinished(|ps| == 1, ps[0]);
        var d := Finish(Trim(ps[0]));
        if Emit(ps[1..]) == [] && |ps| > 1 { OpenFinished(d); }
      }
    }
  }

  lemma {:induction false} EmitFixes(ds: seq<string>)
    requires AllFinished(ds)
    ensures Emit(ds) == ds
  {
    if ds != [] {
      forall i | 0 <= i < |ds[1..]| ensures Finished(i == |ds[1..]| - 1, ds[1..][i]) {
        assert ds[1..][i] == ds[i + 1];
      }
      EmitFixes(ds[1..]);
      assert Finished(|ds| == 1, ds[0]);
      TrimmedIsItself(ds[0]);
    }
  }

  /** Joined finished declarations are comment-free and split back into themselves. */
  lemma {:induction false} JoinSplitsBack(ds: seq<string>)
    requires AllFinished(ds) && ds != []
    ensures Pieces(false, None, 0, Join(ds)) == ds && NoComment(false, None, Join(ds))
  {
    hide Scans, Pieces, NoComment;
    assert Finished(|ds| == 1, ds[0]);
    if |ds| == 1 {
      LastPiece(false, None, 0, ds[0]);
    } else {
      forall i | 0 <= i < |ds[1..]| ensures Finished(i == |ds[1..]| - 1, ds[1..][i]) {
        assert ds[1..][i] == ds[i + 1];
      }
      JoinSplitsBack(ds[1..]);
      ClosedPiece(false, None, 0, ds[0], Join(ds[1..]));
      assert ds == [ds[0]] + ds[1..];
    }
  }

  lemma DeclarationsAreFinished(css: string)
    ensures AllFinished(Declarations(css))
  {
    hide Scans, Pieces, NoComment;
    StripLeavesNoComment(false, None, css);
    PiecesOfText(false, None, 0, StripComments(css));
    var ps := Pieces(false, None, 0, StripComments(css));
    assert forall i :: 0 <= i < |ps| ==> Scans(i == |ps| - 1, false, None, 0, ps[i]);
    EmitFinishes(ps);
  }

  /** Every declaration that importantify emits ends in `!important`, whatever the input was. */
  lemma EveryDeclarationIsMarked(css: string)
    ensures forall i :: 0 <= i < |Declarations(css)| ==> EndsImportant(Declarations(css)[i])
  {
    hide Declarations;
    DeclarationsAreFinished(css);
    forall i | 0 <= i < |Declarations(css)| ensures EndsImportant(Declarations(css)[i]) {
      assert Finished(i == |Declarations(css)| - 1, Declarations(css)[i]);
    }
  }

  /** importantify is idempotent on every string, and its output's declarations are the same ones. */
  lemma ImportantifyIsIdempotent(css: string)
    ensures Declarations(Importantify(css)) == Declarations(css)
    ensures Importantify(Importantify(css)) == Importantify(css)
  {
    hide Pieces, Strip, NoComment;
    var ds := Declarations(css);
    DeclarationsAreFinished(css);
    if ds == [] {
      NothingIn();
    } else {
      JoinSplitsBack(ds);
      NothingToStrip(false, None, Join(ds));
      EmitFixes(ds);
    }
  }

  lemma NothingIn()
    ensures Declarations("") == []
  {
    var ps := Pieces(false, None, 0, "");
    assert ps == [""] && ps[1..] == [] && Trim("") == "";
  }
}

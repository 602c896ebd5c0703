/**
 What stripping and marking do to a text, told without the scanner's own helpers: every comment becomes
 one blank, from its opening to the first closing behind it, and what stands between two comments stays.
 */
module CssMeaning {
  import opened Wrappers
  import opened Text
  import opened CssScanners
  import opened CssImportant

  /** Nowhere in `c` is there a comment end. */
  ghost predicate NoClose(c: string) {
    forall i, j :: 0 <= i && j == i + 1 && j < |c| ==> !(c[i] == '*' && c[j] == '/')
  }

  /** The scan of `s` meets no comment and ends outside quotes and url tokens. */
  predicate EndsOutside(name: bool, quote: Option<char>, s: string)
    decreases |s|
  {
    if s == [] then quote.None?
    else
      var c := s[0];
      if quote.Some? then
        if c == '\\' then |s| > 1 && EndsOutside(IsName(s[1]), quote, s[2..])
        else EndsOutside(IsName(c), if c == quote.value then None else quote, s[1..])
      else if IsQuote(c) then EndsOutside(false, Some(c), s[1..])
      else if c == '/' && |s| >= 2 && s[1] == '*' then false
      else
        var u := UrlAt(name, s);
        UrlFits(name, s);
        match u
        case NotUrl => EndsOutside(IsName(c), None, s[1..])
        case Unterminated => false
        case Terminated(n) => EndsOutside(false, None, s[n..])
  }

  // ---- The first close ----

  lemma {:induction false} FirstCloseEnds(c: string, b: string)
    requires NoClose(c)
    ensures PastClose(c + "*/" + b) == Some(|c| + 2)
  {
    var s := c + "*/" + b;
    if c == [] {
      assert s[0] == '*' && s[1] == '/';
    } else {
      assert s[0] == c[0] && s[1] == (if |c| > 1 then c[1] else '*');
      assert s[1..] == c[1..] + "*/" + b;
      FirstCloseEnds(c[1..], b);
    }
  }

  lemma {:induction false} NoCloseNoEnd(c: string)
    requires NoClose(c)
    ensures PastClose(c).None?
  {
    if |c| >= 2 {
      NoCloseNoEnd(c[1..]);
    }
  }

  // ---- Text before a comment or a semicolon is copied ----

  /** A slash or a semicolon: it starts no url and ends no comment opening. */
  predicate StopsHere(s: string) {
    s != [] && (s[0] == '/' || s[0] == ';')
  }

  lemma {:induction false} QuoteStaysAhead(x: string, y: string)
    requires QuoteFollows(x)
    ensures QuoteFollows(x + y)
  {
    if IsSpace(x[0]) {
      assert (x + y)[1..] == x[1..] + y;
      QuoteStaysAhead(x[1..], y);
    }
  }

  /** What starts no url starts none with a slash or a semicolon behind it. */
  lemma StillNoUrl(name: bool, s: string, rest: string)
    requires UrlAt(name, s).NotUrl? && s != [] && StopsHere(rest)
    ensures UrlAt(name, s + rest).NotUrl?
  {
    hide UrlAt, QuoteFollows;
    UrlLetters(name, s);
    UrlLetters(name, s + rest);
    if |s| >= 4 {
      assert (s + rest)[4..] == s[4..] + rest;
      if QuoteFollows(s[4..]) { QuoteStaysAhead(s[4..], rest); }
    } else {
      assert (s + rest)[|s|] == rest[0];
    }
  }

  lemma StillUrl(name: bool, s: string, n: nat, rest: string)
    requires UrlAt(name, s) == Terminated(n) && n <= |s|
    ensures UrlAt(name, s + rest) == Terminated(n)
  {
    hide UrlAt;
    TokenStandsAlone(name, s, n, s[n..] + rest);
    assert s + rest == s[..n] + (s[n..] + rest);
  }

  /** Here it does not matter what came before. */
  lemma StopNeedsNoName(name: bool, rest: string)
    requires StopsHere(rest)
    ensures Strip(name, None, rest) == Strip(false, None, rest)
  {
    UrlLetters(name, rest);
    UrlLetters(false, rest);
  }

  lemma {:induction false} CopiedBefore(name: bool, quote: Option<char>, a: string, rest: string)
    requires EndsOutside(name, quote, a) && StopsHere(rest)
    ensures Strip(name, quote, a + rest) == a + Strip(false, None, rest)
    decreases |a|, 1
  {
    hide IsName, UrlAt;
    if a == [] {
      assert a + rest == rest;
      StopNeedsNoName(name, rest);
    } else if quote.Some? {
      CopiedInQuote(name, quote, a, rest);
    } else if IsQuote(a[0]) {
      OneCopied(a, rest, 1);
      CopiedBefore(false, Some(a[0]), a[1..], rest);
    } else {
      CopiedOutside(name, a, rest);
    }
  }

  lemma OneCopied(a: string, rest: string, n: nat)
    requires n <= |a|
    ensures a == a[..n] + a[n..] && (a + rest)[n..] == a[n..] + rest && (a + rest)[..n] == a[..n]
    ensures forall t :: a[..n] + (a[n..] + t) == a + t
    ensures n == 1 ==> a[..1] == [a[0]]
  {
    forall t ensures a[..n] + (a[n..] + t) == a + t {
    }
  }

  lemma CopiedInQuote(name: bool, quote: Option<char>, a: string, rest: string)
    requires EndsOutside(name, quote, a) && StopsHere(rest) && quote.Some? && a != []
    ensures Strip(name, quote, a + rest) == a + Strip(false, None, rest)
    decreases |a|, 0
  {
    hide IsName, UrlAt;
    var c := a[0];
    if c == '\\' {
      OneCopied(a, rest, 2);
      CopiedBefore(IsName(a[1]), quote, a[2..], rest);
    } else {
      OneCopied(a, rest, 1);
      CopiedBefore(IsName(c), if c == quote.value then None else quote, a[1..], rest);
    }
  }

  lemma CopiedOutside(name: bool, a: string, rest: string)
    requires EndsOutside(name, None, a) && StopsHere(rest) && a != [] && !IsQuote(a[0])
    ensures Strip(name, None, a + rest) == a + Strip(false, None, rest)
    decreases |a|, 0
  {
    hide IsName, UrlAt;
    var c := a[0];
    assert !(c == '/' && (a + rest)[1] == '*');
    UrlFits(name, a);
    if UrlAt(name, a).NotUrl? {
      StillNoUrl(name, a, rest);
      OneCopied(a, rest, 1);
      CopiedBefore(IsName(c), None, a[1..], rest);
    } else {
      var n := UrlAt(name, a).n;
      StillUrl(name, a, n, rest);
      OneCopied(a, rest, n);
      CopiedBefore(false, None, a[n..], rest);
    }
  }

  // ---- Comments become blanks ----

  lemma StripComment(c: string, b: string)
    requires NoClose(c)
    ensures Strip(false, None, "/*" + c + "*/" + b) == " " + StripComments(b)
    ensures Strip(false, None, "/*" + c) == " "
  {
    var s := "/*" + c + "*/" + b;
    assert s[0] == '/' && s[1] == '*' && s[2..] == c + "*/" + b;
    FirstCloseEnds(c, b);
    assert s[2 + (|c| + 2)..] == b;
    var t := "/*" + c;
    assert t[0] == '/' && t[1] == '*' && t[2..] == c;
    NoCloseNoEnd(c);
  }

  /**
   A comment is a blank: whatever comment-free text stands before it, it ends at the first comment end
   behind its opening, and what follows is stripped as if it stood alone.
   */
  lemma CommentIsOneBlank(a: string, c: string, b: string)
    requires EndsOutside(false, None, a) && NoClose(c)
    ensures StripComments(a + "/*" + c + "*/" + b) == a + " " + StripComments(b)
  {
    hide Strip, EndsOutside, NoClose;
    var rest := "/*" + c + "*/" + b;
    assert rest[0] == '/' && rest[1] == '*' && a + "/*" + c + "*/" + b == a + rest;
    CopiedBefore(false, None, a, rest);
    StripComment(c, b);
    assert a + (" " + StripComments(b)) == a + " " + StripComments(b);
  }

  /** A comment that is never closed takes the rest of the text. */
  lemma OpenCommentRunsOut(a: string, c: string)
    requires EndsOutside(false, None, a) && NoClose(c)
    ensures StripComments(a + "/*" + c) == a + " "
  {
    hide Strip, EndsOutside, NoClose;
    var rest := "/*" + c;
    assert rest[0] == '/' && rest[1] == '*' && a + "/*" + c == a + rest;
    CopiedBefore(false, None, a, rest);
    StripComment(c, "");
  }

  /** And text without a comment that ends outside stays as it is. */
  lemma {:induction false} OutsideHasNoComment(name: bool, quote: Option<char>, a: string)
    requires EndsOutside(name, quote, a)
    ensures NoComment(name, quote, a)
    decreases |a|
  {
    hide IsName, UrlAt;
    if a != [] {
      var c := a[0];
      if quote.Some? {
        if c == '\\' {
          OutsideHasNoComment(IsName(a[1]), quote, a[2..]);
        } else {
          OutsideHasNoComment(IsName(c), if c == quote.value then None else quote, a[1..]);
        }
      } else if IsQuote(c) {
        OutsideHasNoComment(false, Some(c), a[1..]);
      } else {
        UrlFits(name, a);
        match UrlAt(name, a) {
          case NotUrl => OutsideHasNoComment(IsName(c), None, a[1..]);
          case Unterminated =>
          case Terminated(n) => OutsideHasNoComment(false, None, a[n..]);
        }
      }
    }
  }

  // ---- What importantify makes of it ----

  lemma {:induction false} ClosedEndsOutside(name: bool, quote: Option<char>, depth: nat, d: string)
    requires Scans(false, name, quote, depth, d)
    ensures EndsOutside(name, quote, d)
    decreases |d|
  {
    hide IsName, UrlAt;
    if d != [] {
      var c := d[0];
      if quote.Some? {
        if c == '\\' {
          ClosedEndsOutside(IsName(d[1]), quote, depth, d[2..]);
        } else {
          ClosedEndsOutside(IsName(c), if c == quote.value then None else quote, depth, d[1..]);
        }
      } else if IsQuote(c) || c == '(' || c == ')' {
        var q := if IsQuote(c) then Some(c) else None;
        var k := if c == '(' then depth + 1 else if c == ')' then Shallower(depth) else depth;
        if c == '(' || c == ')' { PlainPunctuation(name, d); }
        ClosedEndsOutside(false, q, k, d[1..]);
      } else {
        UrlFits(name, d);
        match UrlAt(name, d) {
          case NotUrl => ClosedEndsOutside(IsName(c), None, depth, d[1..]);
          case Unterminated =>
          case Terminated(n) => ClosedEndsOutside(false, None, depth, d[n..]);
        }
      }
    }
  }

  /** What one piece of text adds to the output: nothing when it is blank, else itself, trimmed and marked once. */
  function OneDeclaration(d: string): seq<string> {
    if Trim(d) == [] then [] else if EndsImportant(Trim(d)) then [Trim(d)] else [Trim(d) + " !important"]
  }

  lemma EmitOne(d: string, ps: seq<string>)
    ensures Emit([d] + ps) == OneDeclaration(d) + Emit(ps)
  {
    hide Trim, EndsImportant;
    assert ([d] + ps)[1..] == ps;
  }

  /** A declaration that ends outside quotes, parentheses and urls is marked on its own, whatever follows it. */
  lemma DeclarationStandsAlone(d: string, t: string)
    requires Scans(false, false, None, 0, d)
    ensures Declarations(d + ";" + t) == OneDeclaration(d) + Declarations(t)
  {
    hide Strip, Scans, Pieces, Emit, OneDeclaration, EndsOutside;
    ClosedEndsOutside(false, None, 0, d);
    var rest := ";" + t;
    assert rest[0] == ';' && d + ";" + t == d + rest;
    CopiedBefore(false, None, d, rest);
    StripSemicolon(t);
    assert d + (";" + StripComments(t)) == d + ";" + StripComments(t);
    ClosedPiece(false, None, 0, d, StripComments(t));
    EmitOne(d, Pieces(false, None, 0, StripComments(t)));
  }

  lemma StripSemicolon(t: string)
    ensures Strip(false, None, ";" + t) == ";" + StripComments(t)
  {
    var s := ";" + t;
    assert s[0] == ';' && s[1..] == t;
    UrlLetters(false, s);
  }

  lemma BlankFirst(x: string)
    ensures Pieces(false, None, 0, " " + x) == Prepend(" ", Pieces(false, None, 0, x))
  {
    var s := " " + x;
    assert s[0] == ' ' && s[1..] == x;
    UrlLetters(false, s);
  }

  lemma EmitBlankFirst(ps: seq<string>)
    requires ps != []
    ensures Emit(Prepend(" ", ps)) == Emit(ps)
  {
    hide TrimEnd;
    var p := " " + ps[0];
    assert p[0] == ' ' && p[1..] == ps[0];
    assert Trim(p) == Trim(ps[0]);
    assert Prepend(" ", ps)[1..] == ps[1..];
  }

  /** A leading comment adds no declaration and takes none away. */
  lemma LeadingCommentIsDropped(c: string, t: string)
    requires NoClose(c)
    ensures Declarations("/*" + c + "*/" + t) == Declarations(t)
  {
    hide Strip, Pieces, Emit, EndsOutside, NoClose;
    StripComment(c, t);
    BlankFirst(StripComments(t));
    EmitBlankFirst(Pieces(false, None, 0, StripComments(t)));
  }

  /** A declaration between two comments survives: it comes first, marked, and the rest is marked as it was. */
  lemma DeclarationBetweenComments(c: string, d: string, e: string, t: string)
    requires NoClose(c) && NoClose(e) && Scans(false, false, None, 0, d)
    ensures Declarations("/*" + c + "*/" + d + ";/*" + e + "*/" + t) == OneDeclaration(d) + Declarations(t)
  {
    hide *;
    var rest := "/*" + e + "*/" + t;
    assert "/*" + c + "*/" + d + ";/*" + e + "*/" + t == "/*" + c + "*/" + (d + ";" + rest) by {
      assert ";/*" == ";" + "/*";
    }
    LeadingCommentIsDropped(c, d + ";" + rest);
    DeclarationStandsAlone(d, rest);
    LeadingCommentIsDropped(e, t);
  }
}

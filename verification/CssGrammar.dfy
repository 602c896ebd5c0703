/**
 A small grammar of declarations: plain characters, strings, url tokens and parentheses, nested to any
 depth. What it prints is one declaration to the scanners, however many quotes, semicolons, comment
 marks and brackets its strings and urls hold.
 */
module CssGrammar {
  import opened Wrappers
  import opened Text
  import opened CssScanners
  import opened CssImportant
  import opened CssMeaning
  import opened AmountReadings

  datatype Css =
    | End
    | Plain(c: char, rest: Css)
    | Str(quote: char, body: string, rest: Css)
    | Url(word: string, body: string, rest: Css)
    | Group(inner: Css, rest: Css)

  function Print(css: Css): string {
    match css
    case End => ""
    case Plain(c, rest) => [c] + Print(rest)
    case Str(quote, body, rest) => [quote] + (body + ([quote] + Print(rest)))
    case Url(word, body, rest) => word + ("(" + (body + (")" + Print(rest))))
    case Group(inner, rest) => "(" + (Print(inner) + (")" + Print(rest)))
  }

  /** No `end` in it but behind a backslash, and no backslash without a character behind it. */
  predicate Unbroken(body: string, end: char) {
    if body == [] then true
    else if body[0] == '\\' then |body| > 1 && Unbroken(body[2..], end)
    else body[0] != end && Unbroken(body[1..], end)
  }

  predicate EndsInUrl(before: string) {
    |before| >= 3 && SameLetters(before[|before| - 3..], "url")
  }

  predicate EndsInName(before: string) {
    before != [] && IsName(before[|before| - 1])
  }

  /**
   A declaration of this grammar, after the text `before` and inside `depth` parentheses. Plain characters
   are no quotes, brackets or slashes, and semicolons only in parentheses. A url token follows no name
   character and its body does not begin with a quote. Behind the letters url, parentheses begin with a
   string.
   */
  predicate IsWellFormed(css: Css, before: string, depth: nat) {
    match css
    case End => true
    case Plain(c, rest) =>
      && c != '"' && c != '\'' && c != '(' && c != ')' && c != '/' && (c == ';' ==> depth > 0)
      && IsWellFormed(rest, before + [c], depth)
    case Str(quote, body, rest) =>
      && (quote == '"' || quote == '\'') && Unbroken(body, quote)
      && IsWellFormed(rest, [quote], depth)
    case Url(word, body, rest) =>
      && SameLetters(word, "url") && !EndsInName(before)
      && Unbroken(body, ')') && (TrimStart(body) != [] ==> TrimStart(body)[0] != '"' && TrimStart(body)[0] != '\'')
      && IsWellFormed(rest, ")", depth)
    case Group(inner, rest) =>
      && (EndsInUrl(before) ==> inner.Str?) && IsWellFormed(inner, "(", depth + 1) && IsWellFormed(rest, ")", depth)
  }

  /** Letters of either case, digits, the underscore and the hyphen: behind these, `url(` is no token. */
  lemma NameCodes(c: char)
    ensures IsName(c) <==> c as int == 45 || 48 <= c as int <= 57 || 65 <= c as int <= 90 || c as int == 95
                           || 97 <= c as int <= 122
  {
  }

  // ---- The scanner reads what is printed ----

  /** The end of the text, or of the parentheses around it. */
  predicate IsTail(tail: string) { tail == [] || tail[0] == ')' }

  lemma {:induction false} ThroughString(last: bool, name: bool, quote: char, depth: nat, body: string, t: string)
    requires IsQuote(quote) && Unbroken(body, quote)
    ensures Scans(last, name, Some(quote), depth, body + ([quote] + t)) == Scans(last, false, None, depth, t)
    decreases |body|
  {
    hide IsName, UrlAt;
    var s := body + ([quote] + t);
    if body == [] {
      assert s[0] == quote && s[1..] == t;
      QuoteIsNoName(quote);
    } else if body[0] == '\\' {
      assert s[0] == '\\' && s[1] == body[1] && s[2..] == body[2..] + ([quote] + t);
      ThroughString(last, IsName(body[1]), quote, depth, body[2..], t);
    } else {
      assert s[0] == body[0] && s[1..] == body[1..] + ([quote] + t);
      ThroughString(last, IsName(body[0]), quote, depth, body[1..], t);
    }
  }

  lemma QuoteIsNoName(c: char)
    requires IsQuote(c)
    ensures !IsName(c) && c != '\\'
  {
  }

  lemma {:induction false} ThroughUrl(body: string, t: string)
    requires Unbroken(body, ')')
    ensures UrlBody(body + (")" + t)) == Terminated(|body| + 1)
    decreases |body|
  {
    var s := body + (")" + t);
    if body == [] {
      assert s[0] == ')';
    } else if body[0] == '\\' {
      assert s[0] == '\\' && s[2..] == body[2..] + (")" + t);
      ThroughUrl(body[2..], t);
    } else {
      assert s[0] == body[0] && s[1..] == body[1..] + (")" + t);
      ThroughUrl(body[1..], t);
    }
  }

  lemma {:induction false} NoQuoteFirst(body: string, t: string)
    requires TrimStart(body) != [] ==> TrimStart(body)[0] != '"' && TrimStart(body)[0] != '\''
    ensures !QuoteFollows(body + (")" + t))
    decreases |body|
  {
    var s := body + (")" + t);
    if body != [] && IsSpace(body[0]) {
      assert s[0] == body[0] && s[1..] == body[1..] + (")" + t);
      NoQuoteFirst(body[1..], t);
    } else {
      assert s[0] == if body == [] then ')' else body[0];
    }
  }

  lemma UrlIsToken(name: bool, word: string, body: string, t: string)
    requires !name && SameLetters(word, "url") && Unbroken(body, ')')
    requires TrimStart(body) != [] ==> TrimStart(body)[0] != '"' && TrimStart(body)[0] != '\''
    ensures var s := word + ("(" + (body + (")" + t)));
            UrlAt(name, s) == Terminated(|body| + 5) && s[|body| + 5..] == t && LowerAscii(s[0]) == 'u' && |s| > 1
  {
    var s := word + ("(" + (body + (")" + t)));
    var head := s[..4];
    assert head == word + "(" && s[4..] == body + (")" + t);
    assert SameLetters(head, "url(") by {
      assert "url("[0] == "url"[0] && "url("[1] == "url"[1] && "url("[2] == "url"[2] && "url("[3] == '(';
      assert LowerAscii('(') == '(';
    }
    ThroughUrl(body, t);
    NoQuoteFirst(body, t);
    assert s[0] == word[0] && "url"[0] == 'u';
  }

  /** A plain character starts no url token: parentheses behind the letters url begin with a quote. */
  lemma NoUrlFromPlain(c: char, rest: Css, before: string, depth: nat, tail: string)
    requires IsWellFormed(Plain(c, rest), before, depth) && IsTail(tail)
    ensures UrlAt(EndsInName(before), Print(Plain(c, rest)) + tail).NotUrl?
  {
    hide UrlAt, QuoteFollows, IsName, Unbroken, EndsInUrl;
    var name := EndsInName(before);
    var s := Print(Plain(c, rest)) + tail;
    var t := Print(rest) + tail;
    UrlLetters(name, s);
    assert s == [c] + t;
    if |s| >= 4 && LowerAscii(c) == 'u' && SpellsRest(t) {
      RestSpelled(rest, before + [c], depth, tail);
      SpelledOut(before, c, t);
      assert s[4..][0] == t[3];
      QuoteRightAway(s[4..]);
    }
  }

  lemma QuoteRightAway(s: string)
    requires s != [] && IsQuote(s[0])
    ensures QuoteFollows(s)
  {
  }

  lemma SpelledOut(before: string, c: char, t: string)
    requires LowerAscii(c) == 'u' && SpellsRest(t)
    ensures EndsInUrl(before + [c] + [t[0]] + [t[1]])
  {
    var all := before + [c] + [t[0]] + [t[1]];
    assert all[|all| - 3..] == [c, t[0], t[1]];
    assert "url"[0] == 'u' && "url"[1] == 'r' && "url"[2] == 'l';
  }

  predicate SpellsRest(t: string) {
    |t| >= 3 && LowerAscii(t[0]) == 'r' && LowerAscii(t[1]) == 'l' && t[2] == '('
  }

  /** Only plain r, plain l and parentheses print `rl(`. */
  lemma RestSpelled(css: Css, before: string, depth: nat, tail: string)
    requires IsWellFormed(css, before, depth) && IsTail(tail) && SpellsRest(Print(css) + tail)
    ensures var t := Print(css) + tail;
            EndsInUrl(before + [t[0]] + [t[1]]) ==> |t| > 3 && IsQuote(t[3])
  {
    hide Unbroken, IsName, EndsInUrl, EndsInName;
    var t := Print(css) + tail;
    FirstPrinted(css, before, depth, tail);
    var b := before + [t[0]];
    assert css.Plain? && t[1..] == Print(css.rest) + tail;
    FirstPrinted(css.rest, b, depth, tail);
    assert css.rest.Plain? && t[2..] == Print(css.rest.rest) + tail;
    FirstPrinted(css.rest.rest, b + [t[1]], depth, tail);
    if EndsInUrl(b + [t[1]]) {
      GroupWithString(css.rest.rest, b + [t[1]], depth, tail);
      assert t[2..][1] == t[3];
    }
  }

  lemma GroupWithString(css: Css, before: string, depth: nat, tail: string)
    requires css.Group? && IsWellFormed(css, before, depth) && EndsInUrl(before)
    ensures var t := Print(css) + tail; |t| > 1 && IsQuote(t[1])
  {
    hide Unbroken, EndsInUrl;
    assert Print(css.inner)[0] == css.inner.quote;
  }

  /** What the first character of a print tells. */
  lemma FirstPrinted(css: Css, before: string, depth: nat, tail: string)
    requires IsWellFormed(css, before, depth) && IsTail(tail) && Print(css) + tail != []
    ensures var c := (Print(css) + tail)[0];
            && (LowerAscii(c) == 'r' || LowerAscii(c) == 'l' ==> css.Plain? && css.c == c)
            && (c == '(' ==> css.Group?)
  {
    hide Unbroken, IsName;
    if css.Url? {
      assert Print(css)[0] == css.word[0] && "url"[0] == 'u';
    }
  }

  /** The scan goes through a print and comes out as it went in, but for the name character before. */
  lemma {:induction false} ThroughPrint(css: Css, before: string, depth: nat, last: bool, tail: string)
    requires IsWellFormed(css, before, depth) && IsTail(tail)
    ensures exists name ::
              Scans(last, EndsInName(before), None, depth, Print(css) + tail) == Scans(last, name, None, depth, tail)
    decreases css
  {
    hide *;
    match css {
      case End => NothingPrinted(last, before, depth, tail);
      case Plain(c, rest) => ThroughPlain(c, rest, before, depth, last, tail);
      case Str(quote, body, rest) => ThroughQuoted(quote, body, rest, before, depth, last, tail);
      case Url(word, body, rest) => ThroughToken(word, body, rest, before, depth, last, tail);
      case Group(inner, rest) => ThroughGroup(inner, rest, before, depth, last, tail);
    }
  }

  lemma NothingPrinted(last: bool, before: string, depth: nat, tail: string)
    ensures Scans(last, EndsInName(before), None, depth, Print(End) + tail) ==
            Scans(last, EndsInName(before), None, depth, tail)
  {
    assert "" + tail == tail;
  }

  lemma ThroughPlain(c: char, rest: Css, before: string, depth: nat, last: bool, tail: string)
    requires IsWellFormed(Plain(c, rest), before, depth) && IsTail(tail)
    ensures exists name :: Scans(last, EndsInName(before), None, depth, Print(Plain(c, rest)) + tail) ==
                           Scans(last, name, None, depth, tail)
    decreases Plain(c, rest), 0
  {
    hide UrlAt, IsName, Unbroken, IsTail;
    var s, t := Print(Plain(c, rest)) + tail, Print(rest) + tail;
    assert s == [c] + t && s[1..] == t;
    NoUrlFromPlain(c, rest, before, depth, tail);
    assert EndsInName(before + [c]) == IsName(c);
    ThroughPrint(rest, before + [c], depth, last, tail);
  }

  lemma ThroughQuoted(quote: char, body: string, rest: Css, before: string, depth: nat, last: bool, tail: string)
    requires IsWellFormed(Str(quote, body, rest), before, depth) && IsTail(tail)
    ensures exists name :: Scans(last, EndsInName(before), None, depth, Print(Str(quote, body, rest)) + tail) ==
                           Scans(last, name, None, depth, tail)
    decreases Str(quote, body, rest), 0
  {
    hide UrlAt, Unbroken, IsTail;
    var t := Print(rest) + tail;
    var s := Print(Str(quote, body, rest)) + tail;
    Quoted([quote], body, Print(rest), tail);
    assert s == [quote] + (body + ([quote] + t));
    assert s[0] == quote && s[1..] == body + ([quote] + t);
    ThroughString(last, false, quote, depth, body, t);
    QuoteIsNoName(quote);
    ThroughPrint(rest, [quote], depth, last, tail);
  }

  lemma ThroughToken(word: string, body: string, rest: Css, before: string, depth: nat, last: bool, tail: string)
    requires IsWellFormed(Url(word, body, rest), before, depth) && IsTail(tail)
    ensures exists name :: Scans(last, EndsInName(before), None, depth, Print(Url(word, body, rest)) + tail) ==
                           Scans(last, name, None, depth, tail)
    decreases Url(word, body, rest), 0
  {
    hide UrlAt, Unbroken, IsTail, TrimStart, SameLetters;
    var t := Print(rest) + tail;
    var s := word + ("(" + (body + (")" + t)));
    UrlParts(word, body, Print(rest), tail);
    assert Print(Url(word, body, rest)) + tail == s;
    UrlIsToken(EndsInName(before), word, body, t);
    assert EndsInName(")") == false;
    ThroughPrint(rest, ")", depth, last, tail);
  }

  lemma ThroughGroup(inner: Css, rest: Css, before: string, depth: nat, last: bool, tail: string)
    requires IsWellFormed(Group(inner, rest), before, depth) && IsTail(tail)
    ensures exists name :: Scans(last, EndsInName(before), None, depth, Print(Group(inner, rest)) + tail) ==
                           Scans(last, name, None, depth, tail)
    decreases Group(inner, rest), 0
  {
    hide *;
    var t := Print(rest) + tail;
    var closing := ")" + t;
    GroupInside(inner, rest, before, depth, tail);
    IntoGroup(last, EndsInName(before), depth, Print(inner) + closing);
    ThroughPrint(inner, "(", depth + 1, last, closing);
    var name :| Scans(last, EndsInName("("), None, depth + 1, Print(inner) + closing) ==
                Scans(last, name, None, depth + 1, closing);
    OutOfGroup(last, name, depth, t);
    ThroughPrint(rest, ")", depth, last, tail);
  }

  lemma GroupInside(inner: Css, rest: Css, before: string, depth: nat, tail: string)
    requires IsWellFormed(Group(inner, rest), before, depth)
    ensures IsWellFormed(inner, "(", depth + 1) && IsWellFormed(rest, ")", depth)
    ensures Print(Group(inner, rest)) + tail == "(" + (Print(inner) + (")" + (Print(rest) + tail)))
    ensures IsTail(")" + (Print(rest) + tail)) && !EndsInName("(") && !EndsInName(")")
  {
    hide Unbroken, IsWellFormed;
    GroupParts(inner, rest, before, depth);
    Bracketed(Print(inner), Print(rest), tail);
    assert (")" + (Print(rest) + tail))[0] == ')';
  }

  lemma GroupParts(inner: Css, rest: Css, before: string, depth: nat)
    requires IsWellFormed(Group(inner, rest), before, depth)
    ensures IsWellFormed(inner, "(", depth + 1) && IsWellFormed(rest, ")", depth)
  {
  }

  lemma Bracketed(a: string, b: string, t: string)
    ensures "(" + (a + (")" + b)) + t == "(" + (a + (")" + (b + t)))
  {
  }

  lemma Quoted(q: string, a: string, b: string, t: string)
    ensures q + (a + (q + b)) + t == q + (a + (q + (b + t)))
  {
  }

  lemma UrlParts(word: string, a: string, b: string, t: string)
    ensures word + ("(" + (a + (")" + b))) + t == word + ("(" + (a + (")" + (b + t))))
  {
  }

  lemma IntoGroup(last: bool, name: bool, depth: nat, t: string)
    ensures Scans(last, name, None, depth, "(" + t) == Scans(last, false, None, depth + 1, t)
  {
    assert ("(" + t)[1..] == t;
  }

  lemma OutOfGroup(last: bool, name: bool, depth: nat, t: string)
    ensures Scans(last, name, None, depth + 1, ")" + t) == Scans(last, false, None, depth, t)
  {
    assert (")" + t)[1..] == t;
  }

  /** A printed declaration is one piece that scans on its own, so it is marked as a whole. */
  lemma PrintedIsOneDeclaration(css: Css, t: string)
    requires IsWellFormed(css, "", 0)
    ensures Declarations(Print(css) + ";" + t) == OneDeclaration(Print(css)) + Declarations(t)
    ensures StripComments(Print(css)) == Print(css)
  {
    hide IsWellFormed, Print, Declarations, OneDeclaration, StripComments;
    PrintedScans(css);
    DeclarationStandsAlone(Print(css), t);
    PrintedHasNoComment(css);
  }

  lemma PrintedScans(css: Css)
    requires IsWellFormed(css, "", 0)
    ensures Scans(false, false, None, 0, Print(css))
  {
    hide IsWellFormed, Print;
    ThroughPrint(css, "", 0, false, "");
    assert Print(css) + "" == Print(css);
    assert forall name :: Scans(false, name, None, 0, "");
  }

  lemma PrintedHasNoComment(css: Css)
    requires Scans(false, false, None, 0, Print(css))
    ensures StripComments(Print(css)) == Print(css)
  {
    hide Strip, Scans, Print, NoComment, EndsOutside;
    ClosedEndsOutside(false, None, 0, Print(css));
    OutsideHasNoComment(false, None, Print(css));
    NothingToStrip(false, None, Print(css));
  }

  /** Comments between printed pieces of text are blanks, and nothing else of it changes. */
  lemma CommentAfterPrint(css: Css, c: string, t: string)
    requires IsWellFormed(css, "", 0) && NoClose(c)
    ensures StripComments(Print(css) + "/*" + c + "*/" + t) == Print(css) + " " + StripComments(t)
  {
    hide *;
    PrintedScans(css);
    ClosedEndsOutside(false, None, 0, Print(css));
    CommentIsOneBlank(Print(css), c, t);
  }

  /** The last declaration needs no semicolon. */
  lemma LastDeclaration(d: string)
    requires Scans(false, false, None, 0, d)
    ensures Declarations(d) == OneDeclaration(d)
  {
    hide Strip, Scans, Pieces, NoComment, EndsOutside, OneDeclaration;
    ClosedEndsOutside(false, None, 0, d);
    OutsideHasNoComment(false, None, d);
    NothingToStrip(false, None, d);
    ClosedIsOpen(false, None, 0, d);
    LastPiece(false, None, 0, d);
    EmitOne(d, []);
    assert [d] + [] == [d] && OneDeclaration(d) + [] == OneDeclaration(d);
  }

  /** A declaration counts as marked when it ends in an exclamation mark, white space and the word, in any case. */
  lemma MarkedExactly(d: string)
    ensures EndsImportant(d) <==> exists head, gap, word: string ::
              d == head + "!" + gap + word && AllSpaces(gap) && SameLetters(word, "important")
  {
    if EndsImportant(d) {
      var word, front := d[|d| - 9..], d[..|d| - 9];
      var gap := TrailingSpaces(front);
      var kept := TrimEnd(front);
      var head := kept[..|kept| - 1];
      assert d == front + word && front == kept + gap && kept == head + "!";
      assert d == head + "!" + gap + word;
    }
    if head, gap, word: string :| d == head + "!" + gap + word && AllSpaces(gap) && SameLetters(word, "important") {
      var front := head + "!";
      assert d[|d| - 9..] == word && d[..|d| - 9] == front + gap;
      MarkIsNoSpace();
      TrimEndSkips(front, gap);
    }
  }

  lemma MarkIsNoSpace()
    ensures !IsSpace('!')
  {
  }

  /** A text without quotes, brackets, slashes and semicolons. */
  function Letters(s: string): Css {
    if s == [] then End else Plain(s[0], Letters(s[1..]))
  }

  predicate IsLetterOnly(s: string) {
    forall i :: 0 <= i < |s| ==> s[i] !in {'"', '\'', '(', ')', '/', ';'}
  }

  lemma {:induction false} LettersPrint(s: string, before: string)
    requires IsLetterOnly(s)
    ensures Print(Letters(s)) == s && IsWellFormed(Letters(s), before, 0)
  {
    if s != [] {
      LettersPrint(s[1..], before + [s[0]]);
      assert s == [s[0]] + s[1..];
    }
  }

  /** Two declarations, each after a comment: both are there, in order, and marked. */
  lemma TwoCommentsTwoDeclarations()
    ensures Importantify("/*a*/c:r;/*b*/m:0") == "c:r !important;m:0 !important"
  {
    hide *;
    LettersOnly();
    LettersPrint("c:r", "");
    LettersPrint("m:0", "");
    PrintedScans(Letters("c:r"));
    PrintedScans(Letters("m:0"));
    DeclarationBetweenComments("a", "c:r", "b", "m:0");
    LastDeclaration("m:0");
    TwoMarked();
    InParts();
    JoinTwo("/*a*/c:r;/*b*/m:0", "c:r !important", "m:0 !important");
  }

  lemma InParts()
    ensures "/*" + "a" + "*/" + "c:r" + ";/*" + "b" + "*/" + "m:0" == "/*a*/c:r;/*b*/m:0"
    ensures "c:r !important" + ";" + "m:0 !important" == "c:r !important;m:0 !important"
  {
  }

  /** What stands between two comments stays. */
  lemma OneBetweenTwo()
    ensures StripComments("/**/a/**/") == " a "
  {
    hide *;
    LettersOnly();
    LettersPrint("a", "");
    OneInParts();
    StripComment("", "a/**/");
    CommentAfterPrint(Letters("a"), "", "");
    StripIsStrip("/**/a/**/");
    NothingToStripFrom();
  }

  lemma OneInParts()
    ensures "/*" + "" + "*/" + "a/**/" == "/**/a/**/" && "a" + "/*" + "" + "*/" + "" == "a/**/"
    ensures " " + ("a" + " " + "") == " a "
  {
  }

  lemma StripIsStrip(css: string)
    ensures StripComments(css) == Strip(false, None, css)
  {
  }

  lemma NothingToStripFrom()
    ensures StripComments("") == ""
  {
  }

  lemma LettersOnly()
    ensures IsLetterOnly("c:r") && IsLetterOnly("m:0") && IsLetterOnly("a")
    ensures NoClose("a") && NoClose("b") && NoClose("")
  {
  }

  lemma TwoMarked()
    ensures OneDeclaration("c:r") == ["c:r !important"] && OneDeclaration("m:0") == ["m:0 !important"]
  {
    hide IsSpace, Trim;
    TrimsTo("c:r");
    TrimsTo("m:0");
    assert "c:r" + " !important" == "c:r !important" && "m:0" + " !important" == "m:0 !important";
  }

  lemma JoinTwo(css: string, a: string, b: string)
    requires Declarations(css) == [a] + [b]
    ensures Importantify(css) == a + ";" + b
  {
    hide Declarations;
    var ds := [a] + [b];
    assert ds[1..] == [b] && ds[0] == a;
    assert Join([b]) == b;
  }

  lemma TrimsTo(d: string)
    requires d != [] && 'a' <= d[0] <= 'z' && ('a' <= d[|d| - 1] <= 'z' || d[|d| - 1] == '0')
    ensures Trim(d) == d
  {
    assert IsTrimmed(d);
    TrimmedIsItself(d);
  }
}

/**
 The stateful CSS scanners: `stripComments` and `importantify`, with quotes, escapes, nested
 parentheses, unquoted url tokens and unterminated tokens. The corresponding standard is CSS Syntax
 Module Level 3, sections 4.3.2 (comments) and 4.3.6 (url tokens); the code decides.
 */
module CssScanners {
  import opened Wrappers
  import opened Text

  predicate IsQuote(c: char) { c == '"' || c == '\'' }

  /** [a-z0-9_-], any case: a name character before `url(` makes it part of a longer name. */
  predicate IsName(c: char) {
    'a' <= c <= 'z' || 'A' <= c <= 'Z' || '0' <= c <= '9' || c == '_' || c == '-'
  }

  // ---- Unquoted urls ----

  datatype Url = NotUrl | Unterminated | Terminated(n: nat)

  function SkipSpaces(s: string): nat {
    if s != [] && IsSpace(s[0]) then 1 + SkipSpaces(s[1..]) else 0
  }

  /** Does a quote follow, after white space? Then `url(` is an ordinary function token. */
  predicate QuoteFollows(s: string) {
    if s == [] then false
    else if IsSpace(s[0]) then QuoteFollows(s[1..])
    else IsQuote(s[0])
  }

  /** From inside the parentheses to just past the closing one, if there is one. */
  function UrlBody(s: string): Url {
    if s == [] then Unterminated
    else if s[0] == ')' then Terminated(1)
    else if s[0] == '\\' then
      if |s| == 1 then Unterminated else Plus(2, UrlBody(s[2..]))
    else Plus(1, UrlBody(s[1..]))
  }

  function Plus(k: nat, u: Url): Url {
    if u.Terminated? then Terminated(k + u.n) else u
  }

  /** The url token at the start of `s`; `name` says whether a name character precedes it. */
  function UrlAt(name: bool, s: string): Url {
    if |s| < 4 || name || !SameLetters(s[..4], "url(") || QuoteFollows(s[4..]) then NotUrl
    else Plus(4, UrlBody(s[4..]))
  }

  predicate NameBefore(css: string, i: nat)
    requires i <= |css|
  {
    i > 0 && IsName(css[i - 1])
  }

  lemma {:induction false} UrlBodyFits(s: string)
    ensures UrlBody(s).Terminated? ==> 0 < UrlBody(s).n <= |s| && s[UrlBody(s).n - 1] == ')'
    ensures UrlBody(s) != NotUrl
  {
    if s != [] && s[0] != ')' && |s| > 1 {
      UrlBodyFits(if s[0] == '\\' then s[2..] else s[1..]);
    }
  }

  lemma UrlFits(name: bool, s: string)
    ensures UrlAt(name, s).Terminated? ==> 4 < UrlAt(name, s).n <= |s| && s[UrlAt(name, s).n - 1] == ')'
    ensures !UrlAt(name, s).NotUrl? ==>
              && |s| >= 4 && LowerAscii(s[0]) == 'u' && LowerAscii(s[1]) == 'r'
              && LowerAscii(s[2]) == 'l' && s[3] == '('
  {
    if !UrlAt(name, s).NotUrl? {
      UrlBodyFits(s[4..]);
      assert s[..4][0] == s[0] && s[..4][1] == s[1] && s[..4][2] == s[2] && s[..4][3] == s[3];
    }
  }

  lemma {:induction false} SpacesThenBody(s: string)
    ensures SkipSpaces(s) <= |s|
    ensures QuoteFollows(s) <==> SkipSpaces(s) < |s| && IsQuote(s[SkipSpaces(s)])
    ensures UrlBody(s) == Plus(SkipSpaces(s), UrlBody(s[SkipSpaces(s)..]))
    ensures SkipSpaces(s) < |s| ==> !IsSpace(s[SkipSpaces(s)])
    ensures forall k :: 0 <= k < SkipSpaces(s) ==> IsSpace(s[k])
  {
    if s != [] && IsSpace(s[0]) {
      SpacesThenBody(s[1..]);
      assert s[1..][SkipSpaces(s[1..])..] == s[SkipSpaces(s)..];
      SpaceIsPlain(s[0]);
      hide IsSpace;
    } else {
      assert s[0..] == s;
    }
  }

  /** The letters of `url(` at `i`, after no name character. */
  predicate UrlOpens(css: string, i: nat)
    requires i < |css|
  {
    i + 4 <= |css| && SameLetters(css[i..i + 4], "url(") && !NameBefore(css, i)
  }

  lemma UrlLettersAt(css: string, i: nat)
    requires i < |css|
    ensures !UrlOpens(css, i) ==> UrlAt(NameBefore(css, i), css[i..]).NotUrl?
    ensures UrlOpens(css, i) ==>
              && (css[i] == 'u' || css[i] == 'U')
              && UrlAt(NameBefore(css, i), css[i..]) ==
                 if QuoteFollows(css[i + 4..]) then NotUrl else Plus(4, UrlBody(css[i + 4..]))
  {
    hide QuoteFollows, UrlBody, IsName;
    var s := css[i..];
    if i + 4 <= |css| {
      assert s[..4] == css[i..i + 4] && s[4..] == css[i + 4..];
      assert css[i..i + 4][0] == css[i] && "url("[0] == 'u';
    }
  }

  lemma PlusPlus(j: nat, k: nat, u: Url)
    ensures Plus(j, Plus(k, u)) == Plus(j + k, u)
  {
  }

  /** scanUnquotedUrl: -1 when no unquoted url starts at `i`, else the index just past it. */
  method ScanUnquotedUrl(css: string, i: nat) returns (end: int)
    requires i < |css|
    ensures var u := UrlAt(NameBefore(css, i), css[i..]);
            end == if u.NotUrl? then -1 else if u.Unterminated? then |css| else i + u.n
  {
    hide SameLetters, IsSpace, QuoteFollows, UrlBody, NameBefore, UrlAt, SkipSpaces;
    UrlLettersAt(css, i);
    if (css[i] != 'u' && css[i] != 'U') || i + 4 > |css| || !SameLetters(css[i..i + 4], "url(") || NameBefore(css, i) {
      return -1;
    }
    var from := i + 4;
    var j := SkipSpacesFrom(css, from);
    SpacesThenBody(css[from..]);
    assert css[from..][j - from..] == css[j..];
    if j < |css| {
      assert css[j] == css[from..][j - from];
    }
    if j < |css| && IsQuote(css[j]) { return -1; }
    end := FindUrlEnd(css, j);
    PlusPlus(4, j - from, UrlBody(css[j..]));
  }

  method SkipSpacesFrom(css: string, from: nat) returns (j: nat)
    requires from <= |css|
    ensures j == from + SkipSpaces(css[from..]) <= |css|
  {
    hide IsSpace;
    j := from;
    while j < |css| && IsSpace(css[j])
      invariant from <= j <= |css|
      invariant SkipSpaces(css[from..]) == j - from + SkipSpaces(css[j..])
    {
      assert css[j..][1..] == css[j + 1..];
      j := j + 1;
    }
  }

  method FindUrlEnd(css: string, from: nat) returns (end: int)
    requires from <= |css|
    ensures var u := UrlBody(css[from..]); end == if u.Terminated? then from + u.n else |css|
    ensures UrlBody(css[from..]) != NotUrl
  {
    var j := from;
    while j < |css| && css[j] != ')'
      invariant from <= j <= |css| + 1
      invariant j <= |css| ==> UrlBody(css[from..]) == Plus(j - from, UrlBody(css[j..]))
      invariant j > |css| ==> UrlBody(css[from..]) == Unterminated
      decreases |css| - j
    {
      if css[j] == '\\' {
        if j + 2 <= |css| { assert css[j..][2..] == css[j + 2..]; }
        j := j + 1;
      } else {
        assert css[j..][1..] == css[j + 1..];
      }
      j := j + 1;
    }
    end := if j < |css| then j + 1 else |css|;
  }

  // ---- Stripping comments ----

  /** Index just past the first comment end in `s`. */
  function PastClose(s: string): Option<nat> {
    if |s| < 2 then None
    else if s[0] == '*' && s[1] == '/' then Some(2)
    else
      var r := PastClose(s[1..]);
      if r.None? then None else Some(1 + r.value)
  }

  lemma {:induction false} CloseFits(s: string)
    ensures PastClose(s).Some? ==> 2 <= PastClose(s).value <= |s|
  {
    if |s| >= 2 { CloseFits(s[1..]); }
  }

  /** What stripComments outputs for the rest `s` of the text, in the given scanner state. */
  function Strip(name: bool, quote: Option<char>, s: string): string
    decreases |s|
  {
    if s == [] then []
    else
      var c := s[0];
      if quote.Some? then
        if c == '\\' then
          if |s| == 1 then s else s[..2] + Strip(IsName(s[1]), quote, s[2..])
        else [c] + Strip(IsName(c), if c == quote.value then None else quote, s[1..])
      else if IsQuote(c) then [c] + Strip(false, Some(c), s[1..])
      else if c == '/' && |s| >= 2 && s[1] == '*' then
        var close := PastClose(s[2..]);
        CloseFits(s[2..]);
        if close.None? then " " else " " + Strip(false, None, s[2 + close.value..])
      else
        var u := UrlAt(name, s);
        UrlFits(name, s);
        match u
        case NotUrl => [c] + Strip(IsName(c), None, s[1..])
        case Unterminated => s
        case Terminated(n) => s[..n] + Strip(false, None, s[n..])
  }

  function StripComments(css: string): string {
    Strip(false, None, css)
  }

  method FindClose(css: string, i: nat) returns (end: int)
    requires i <= |css|
    ensures end == if PastClose(css[i..]).None? then -1 else i + PastClose(css[i..]).value - 2
  {
    var j := i;
    while j + 2 <= |css|
      invariant i <= j <= |css|
      invariant PastClose(css[i..]) ==
                if PastClose(css[j..]).None? then None else Some(j - i + PastClose(css[j..]).value)
      decreases |css| - j
    {
      if css[j] == '*' && css[j + 1] == '/' { return j; }
      assert css[j..][1..] == css[j + 1..];
      j := j + 1;
    }
    end := -1;
  }

  /** Where the scan of the text at `i` stands, for the loops. */
  function StripFrom(css: string, i: nat, quote: Option<char>): string
    requires i <= |css|
  {
    Strip(NameBefore(css, i), quote, css[i..])
  }

  lemma QuotedStep(css: string, i: nat, quote: Option<char>)
    requires i < |css| && quote.Some?
    ensures css[i] == '\\' && i + 1 < |css| ==>
        StripFrom(css, i, quote) == [css[i], css[i + 1]] + StripFrom(css, i + 2, quote)
    ensures css[i] == '\\' && i + 1 == |css| ==> StripFrom(css, i, quote) == [css[i]] + StripFrom(css, i + 1, quote)
    ensures css[i] != '\\' ==>
              StripFrom(css, i, quote) ==
              [css[i]] + StripFrom(css, i + 1, if quote == Some(css[i]) then None else quote)
  {
    hide IsName;
    var s := css[i..];
    assert s[1..] == css[i + 1..];
    if i + 1 < |css| {
      assert s[..2] == [css[i], css[i + 1]] && s[2..] == css[i + 2..];
    }
  }

  lemma OpenStep(css: string, i: nat)
    requires i < |css| && IsQuote(css[i])
    ensures StripFrom(css, i, None) == [css[i]] + StripFrom(css, i + 1, Some(css[i]))
  {
    assert css[i..][1..] == css[i + 1..];
  }

  lemma CommentStep(css: string, i: nat)
    requires i + 1 < |css| && css[i] == '/' && css[i + 1] == '*'
    ensures var close := PastClose(css[i + 2..]);
            if close.None? then StripFrom(css, i, None) == " " + StripFrom(css, |css|, None)
            else
              && i + 2 + close.value <= |css|
              && StripFrom(css, i, None) == " " + StripFrom(css, i + 2 + close.value, None)
  {
    var s := css[i..];
    var close := PastClose(css[i + 2..]);
    assert s[2..] == css[i + 2..];
    CloseFits(css[i + 2..]);
    if close.Some? {
      CloseIsSlash(css[i + 2..]);
      assert css[i + 1 + close.value] == css[i + 2..][close.value - 1];
      assert s[2 + close.value..] == css[i + 2 + close.value..];
    }
  }

  lemma PlainStep(css: string, i: nat)
    requires i < |css| && !IsQuote(css[i]) && !(css[i] == '/' && i + 1 < |css| && css[i + 1] == '*')
    ensures var u := UrlAt(NameBefore(css, i), css[i..]);
            match u
            case NotUrl => StripFrom(css, i, None) == [css[i]] + StripFrom(css, i + 1, None)
            case Unterminated => StripFrom(css, i, None) == css[i..] + StripFrom(css, |css|, None)
            case Terminated(n) =>
              i < i + n <= |css| && StripFrom(css, i, None) == css[i..i + n] + StripFrom(css, i + n, None)
  {
    hide UrlAt;
    var s := css[i..];
    var u := UrlAt(NameBefore(css, i), s);
    UrlFits(NameBefore(css, i), s);
    assert s[1..] == css[i + 1..];
    if u.Terminated? {
      assert s[..u.n] == css[i..i + u.n] && s[u.n..] == css[i + u.n..];
      assert css[i + u.n - 1] == s[u.n - 1] == ')';
    }
  }

  /** One turn of stripComments' loop: what it outputs, where it goes on and in which quote. */
  method StripTurn(css: string, i: nat, quote: Option<char>) returns (piece: string, next: nat, quote': Option<char>)
    requires i < |css|
    ensures i < next <= |css|
    ensures StripFrom(css, i, quote) == piece + StripFrom(css, next, quote')
  {
    hide StripFrom, UrlAt, PastClose, NameBefore;
    var c := css[i];
    piece, next, quote' := [c], i + 1, quote;
    if quote.Some? {
      QuotedStep(css, i, quote);
      if c == '\\' {
        if i + 1 < |css| { piece, next := [c, css[i + 1]], i + 2; }
      } else if quote == Some(c) {
        quote' := None;
      }
    } else if IsQuote(c) {
      OpenStep(css, i);
      quote' := Some(c);
    } else if c == '/' && i + 1 < |css| && css[i + 1] == '*' {
      CommentStep(css, i);
      CloseFits(css[i + 2..]);
      var end := FindClose(css, i + 2);
      piece, next := " ", if end == -1 then |css| else end + 2;
    } else {
      PlainStep(css, i);
      var end := ScanUnquotedUrl(css, i);
      if end != -1 { piece, next := css[i..end], end; }
    }
  }

  /** stripComments, as the source's index loop. */
  method StripCommentsLoop(css: string) returns (out: string)
    ensures out == StripComments(css)
  {
    out := "";
    var quote: Option<char> := None;
    var i := 0;
    assert css[0..] == css;
    assert StripFrom(css, 0, None) == StripComments(css);
    hide StripFrom, StripComments;
    while i < |css|
      invariant 0 <= i <= |css|
      invariant out + StripFrom(css, i, quote) == StripComments(css)
      decreases |css| - i
    {
      var piece, next, quote' := StripTurn(css, i, quote);
      Associative(out, piece, StripFrom(css, next, quote'));
      out, i, quote := out + piece, next, quote';
    }
    NothingLeft(css, quote);
  }

  lemma Associative(a: string, b: string, c: string)
    ensures a + b + c == a + (b + c)
  {
  }

  lemma NothingLeft(css: string, quote: Option<char>)
    ensures StripFrom(css, |css|, quote) == []
  {
  }

  lemma {:induction false} CloseIsSlash(s: string)
    requires PastClose(s).Some?
    ensures 2 <= PastClose(s).value <= |s| && s[PastClose(s).value - 1] == '/'
  {
    if !(s[0] == '*' && s[1] == '/') { CloseIsSlash(s[1..]); }
  }

  // ---- Stripping is idempotent ----

  /** The scan of `s` meets no comment. */
  predicate NoComment(name: bool, quote: Option<char>, s: string)
    decreases |s|
  {
    if s == [] then true
    else
      var c := s[0];
      if quote.Some? then
        if c == '\\' then |s| == 1 || NoComment(IsName(s[1]), quote, s[2..])
        else NoComment(IsName(c), if c == quote.value then None else quote, s[1..])
      else if IsQuote(c) then NoComment(false, Some(c), s[1..])
      else if c == '/' && |s| >= 2 && s[1] == '*' then false
      else
        var u := UrlAt(name, s);
        UrlFits(name, s);
        match u
        case NotUrl => NoComment(IsName(c), None, s[1..])
        case Unterminated => true
        case Terminated(n) => NoComment(false, None, s[n..])
  }

  lemma {:induction false} NothingToStrip(name: bool, quote: Option<char>, s: string)
    requires NoComment(name, quote, s)
    ensures Strip(name, quote, s) == s
    decreases |s|, 1
  {
    hide IsName, UrlAt;
    if s != [] {
      var c := s[0];
      if quote.Some? {
        NothingToStripInQuote(name, quote, s);
      } else if IsQuote(c) {
        NothingToStrip(false, Some(c), s[1..]);
      } else {
        NothingToStripOutside(name, s);
      }
    }
  }

  lemma {:induction false} NothingToStripOutside(name: bool, s: string)
    requires NoComment(name, None, s) && s != [] && !IsQuote(s[0])
    ensures Strip(name, None, s) == s
    decreases |s|, 0
  {
    OneStripOutside(name, s);
    hide *;
    match UrlAt(name, s) {
      case NotUrl =>
        NothingToStrip(IsName(s[0]), None, s[1..]);
        CutAt(s, 1);
      case Unterminated =>
      case Terminated(n) =>
        NothingToStrip(false, None, s[n..]);
        CutAt(s, n);
    }
  }

  lemma CutAt(s: string, n: nat)
    requires n <= |s|
    ensures s == s[..n] + s[n..]
    ensures n == 1 ==> s == [s[0]] + s[1..]
  {
  }

  lemma OneStripOutside(name: bool, s: string)
    requires NoComment(name, None, s) && s != [] && !IsQuote(s[0])
    ensures match UrlAt(name, s)
            case NotUrl =>
              && NoComment(IsName(s[0]), None, s[1..])
              && Strip(name, None, s) == [s[0]] + Strip(IsName(s[0]), None, s[1..])
            case Unterminated => Strip(name, None, s) == s
            case Terminated(n) =>
              && 0 < n <= |s| && NoComment(false, None, s[n..])
              && Strip(name, None, s) == s[..n] + Strip(false, None, s[n..])
  {
    hide IsName, UrlAt, IsQuote;
    UrlFits(name, s);
  }

  lemma {:induction false} NothingToStripInQuote(name: bool, quote: Option<char>, s: string)
    requires NoComment(name, quote, s) && quote.Some? && s != []
    ensures Strip(name, quote, s) == s
    decreases |s|, 0
  {
    hide IsName, UrlAt, IsQuote;
    var c := s[0];
    if c == '\\' {
      if |s| > 1 { NothingToStrip(IsName(s[1]), quote, s[2..]); }
    } else {
      NothingToStrip(IsName(c), if c == quote.value then None else quote, s[1..]);
    }
  }

  /** A character that neither quotes, nor comments, nor starts a url is copied. */
  predicate IsPlain(c: char) { !IsQuote(c) && c != '/' && LowerAscii(c) != 'u' }

  lemma PlainIsCopied(name: bool, s: string)
    requires s != [] && IsPlain(s[0])
    ensures Strip(name, None, s) == [s[0]] + Strip(IsName(s[0]), None, s[1..])
  {
    UrlFits(name, s);
  }

  /** The output starts with the input's first character, or with the blank left by a comment. */
  lemma HeadOfStrip(name: bool, s: string)
    requires s != []
    ensures var out := Strip(name, None, s);
            out != [] && (out[0] == s[0] || (out[0] == ' ' && s[0] == '/'))
  {
    UrlFits(name, s);
    hide UrlAt, IsName;
  }

  lemma {:induction false} QuoteStillFollows(name: bool, s: string)
    requires QuoteFollows(s)
    ensures QuoteFollows(Strip(name, None, s))
    decreases |s|
  {
    if IsSpace(s[0]) {
      SpaceIsPlain(s[0]);
      PlainIsCopied(name, s);
      QuoteStillFollows(IsName(s[0]), s[1..]);
      assert Strip(name, None, s)[1..] == Strip(IsName(s[0]), None, s[1..]);
    } else {
      HeadOfStrip(name, s);
    }
  }

  lemma SpaceIsPlain(c: char)
    requires IsSpace(c)
    ensures IsPlain(c) && !IsName(c) && c != '(' && c != ')' && c != ';' && c != '\\'
  {
  }

  /** If the output of the rest continues `rl(`, so does the rest itself. */
  lemma LettersComeFromInput(name: bool, s: string)
    requires var out := Strip(name, None, s);
             |out| >= 3 && LowerAscii(out[0]) == 'r' && LowerAscii(out[1]) == 'l' && out[2] == '('
    ensures |s| >= 3 && LowerAscii(s[0]) == 'r' && LowerAscii(s[1]) == 'l' && s[2] == '('
    ensures Strip(name, None, s)[3..] == Strip(false, None, s[3..])
  {
    hide Strip, IsName;
    NoneIsNothing(name, s);
    HeadOfStrip(name, s);
    PlainIsCopied(name, s);
    var s1, n1 := s[1..], IsName(s[0]);
    NoneIsNothing(n1, s1);
    HeadOfStrip(n1, s1);
    PlainIsCopied(n1, s1);
    var s2, n2 := s1[1..], IsName(s1[0]);
    NoneIsNothing(n2, s2);
    HeadOfStrip(n2, s2);
    PlainIsCopied(n2, s2);
    assert s2[1..] == s[3..];
    assert Strip(name, None, s) == [s[0], s1[0], s2[0]] + Strip(IsName(s2[0]), None, s[3..]);
    ParenIsNoName();
  }

  lemma ParenIsNoName()
    ensures !IsName('(') && !IsName(')')
  {
  }

  lemma NoneIsNothing(name: bool, s: string)
    ensures s == [] <==> Strip(name, None, s) == []
  {
    if s != [] { HeadOfStrip(name, s); }
  }

  lemma UrlLetters(name: bool, s: string)
    ensures !UrlAt(name, s).NotUrl? <==>
              && |s| >= 4 && !name
              && LowerAscii(s[0]) == 'u' && LowerAscii(s[1]) == 'r' && LowerAscii(s[2]) == 'l' && s[3] == '('
              && !QuoteFollows(s[4..])
  {
    if |s| >= 4 {
      UrlBodyFits(s[4..]);
      var t := s[..4];
      assert t[0] == s[0] && t[1] == s[1] && t[2] == s[2] && t[3] == s[3];
      assert "url("[0] == 'u' && "url("[1] == 'r' && "url("[2] == 'l' && "url("[3] == '(';
      assert SameLetters(t, "url(") <==>
        LowerAscii(t[0]) == 'u' && LowerAscii(t[1]) == 'r' && LowerAscii(t[2]) == 'l' && LowerAscii(t[3]) == '(';
    }
  }

  /** A copied character starts no url in the output that it did not start in the input. */
  lemma NoNewUrl(name: bool, c: char, rest: string)
    requires UrlAt(name, [c] + rest).NotUrl?
    ensures UrlAt(name, [c] + Strip(IsName(c), None, rest)).NotUrl?
  {
    hide Strip, UrlAt, QuoteFollows, IsName;
    var out := Strip(IsName(c), None, rest);
    UrlLetters(name, [c] + rest);
    UrlLetters(name, [c] + out);
    assert forall i :: 0 <= i < |rest| ==> ([c] + rest)[i + 1] == rest[i];
    assert forall i :: 0 <= i < |out| ==> ([c] + out)[i + 1] == out[i];
    if |out| >= 3 && LowerAscii(out[0]) == 'r' && LowerAscii(out[1]) == 'l' && out[2] == '(' {
      LettersComeFromInput(IsName(c), rest);
      assert ([c] + rest)[4..] == rest[3..] && ([c] + out)[4..] == out[3..];
      assert ([c] + rest)[1] == rest[0] && ([c] + rest)[2] == rest[1] && ([c] + rest)[3] == rest[2];
      if QuoteFollows(rest[3..]) {
        QuoteStillFollows(false, rest[3..]);
      }
    } else if |out| >= 3 {
      assert ([c] + out)[1] == out[0] && ([c] + out)[2] == out[1] && ([c] + out)[3] == out[2];
    }
  }

  lemma {:induction false} BodyStandsAlone(s: string, n: nat, t: string)
    requires UrlBody(s) == Terminated(n) && n <= |s|
    ensures UrlBody(s[..n] + t) == Terminated(n)
    decreases |s|
  {
    UrlBodyFits(s);
    if s[0] != ')' {
      var k := if s[0] == '\\' then 2 else 1;
      UrlBodyFits(s[k..]);
      BodyStandsAlone(s[k..], n - k, t);
      assert (s[..n] + t)[k..] == s[k..][..n - k] + t;
    }
  }

  lemma {:induction false} QuoteDecidedEarly(s: string, n: nat, t: string)
    requires UrlBody(s) == Terminated(n) && n <= |s|
    ensures QuoteFollows(s[..n] + t) == QuoteFollows(s)
    decreases |s|
  {
    UrlBodyFits(s);
    if IsSpace(s[0]) {
      SpaceIsPlain(s[0]);
      UrlBodyFits(s[1..]);
      QuoteDecidedEarly(s[1..], n - 1, t);
      assert (s[..n] + t)[1..] == s[1..][..n - 1] + t;
    }
  }

  /** A terminated url token is the same token whatever follows it. */
  lemma TokenStandsAlone(name: bool, s: string, n: nat, t: string)
    requires UrlAt(name, s) == Terminated(n) && n <= |s|
    ensures UrlAt(name, s[..n] + t) == Terminated(n)
  {
    UrlFits(name, s);
    BodyStandsAlone(s[4..], n - 4, t);
    QuoteDecidedEarly(s[4..], n - 4, t);
    assert (s[..n] + t)[..4] == s[..4] && (s[..n] + t)[4..] == s[4..][..n - 4] + t;
  }

  /** What stripComments outputs has no comment left, in any scanner state. */
  lemma {:induction false} StripLeavesNoComment(name: bool, quote: Option<char>, s: string)
    ensures NoComment(name, quote, Strip(name, quote, s))
    decreases |s|
  {
    hide IsName, UrlAt;
    if s != [] {
      var c := s[0];
      var out := Strip(name, quote, s);
      if quote.Some? {
        if c == '\\' {
          if |s| > 1 {
            StripLeavesNoComment(IsName(s[1]), quote, s[2..]);
            assert out[2..] == Strip(IsName(s[1]), quote, s[2..]);
          }
        } else {
          var q := if c == quote.value then None else quote;
          StripLeavesNoComment(IsName(c), q, s[1..]);
          assert out[1..] == Strip(IsName(c), q, s[1..]);
        }
      } else if IsQuote(c) {
        StripLeavesNoComment(false, Some(c), s[1..]);
        assert out[1..] == Strip(false, Some(c), s[1..]);
      } else if c == '/' && |s| >= 2 && s[1] == '*' {
        CommentBecomesBlank(name, s);
      } else {
        UrlFits(name, s);
        match UrlAt(name, s) {
          case NotUrl => CopiedCharIsHarmless(name, s);
          case Unterminated => UrlStaysPut(name, s);
          case Terminated(n) =>
            StripLeavesNoComment(false, None, s[n..]);
            TokenStandsAlone(name, s, n, Strip(false, None, s[n..]));
            assert out[n..] == Strip(false, None, s[n..]);
            assert out[0] == s[0];
        }
      }
    }
  }

  lemma UrlStaysPut(name: bool, s: string)
    requires UrlAt(name, s).Unterminated?
    ensures NoComment(name, None, s)
  {
    UrlFits(name, s);
  }

  lemma CommentBecomesBlank(name: bool, s: string)
    requires |s| >= 2 && s[0] == '/' && s[1] == '*'
    ensures NoComment(name, None, Strip(name, None, s))
    decreases |s|, 0
  {
    var close := PastClose(s[2..]);
    CloseFits(s[2..]);
    var out := Strip(name, None, s);
    UrlFits(name, out);
    assert !IsName(' ');
    if close.None? {
      assert out[1..] == [];
    } else {
      StripLeavesNoComment(false, None, s[2 + close.value..]);
      assert out[1..] == Strip(false, None, s[2 + close.value..]);
    }
  }

  lemma CopiedCharIsHarmless(name: bool, s: string)
    requires s != [] && !IsQuote(s[0]) && !(s[0] == '/' && |s| >= 2 && s[1] == '*') && UrlAt(name, s).NotUrl?
    ensures NoComment(name, None, Strip(name, None, s))
    decreases |s|, 0
  {
    hide IsName, UrlAt;
    var c, rest := s[0], s[1..];
    var out := Strip(name, None, s);
    StripLeavesNoComment(IsName(c), None, rest);
    assert s == [c] + rest && out == [c] + Strip(IsName(c), None, rest) && out[1..] == Strip(IsName(c), None, rest);
    NoNewUrl(name, c, rest);
    if c == '/' && rest != [] {
      HeadOfStrip(IsName(c), rest);
    }
  }

  /** stripComments is idempotent on every string. */
  lemma StripCommentsIsIdempotent(css: string)
    ensures StripComments(StripComments(css)) == StripComments(css)
  {
    StripLeavesNoComment(false, None, css);
    NothingToStrip(false, None, StripComments(css));
  }
}

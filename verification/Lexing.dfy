/**
 What one round of the lexer's loop does at a position of the input, and what a whole run yields.
 Positions count characters.
 */
module Lexing {
  import opened Options
  import opened Tokens

  // ---------------------------------------------------------------------------
  // Runs of characters

  datatype Kind = Word | Digits | HexDigits | Dashes | Until(c: char) | Line | Dark

  predicate InKind(t: Tables, k: Kind, c: char) {
    match k
    case Word => Continues(t, c)
    case Digits => IsDigit(c) || c == '_'
    case HexDigits => IsHexDigit(c) || c == '_'
    case Dashes => c == '-'
    case Until(q) => c != q
    case Line => c != '\n' && c != '\r'
    case Dark => !t.isWhitespace(c)
  }

  /** Where the run of characters of kind k from p on ends. */
  function Run(t: Tables, k: Kind, s: string, p: nat): (e: nat)
    requires p <= |s|
    ensures p <= e <= |s|
    decreases |s| - p
  {
    if p < |s| && InKind(t, k, s[p]) then Run(t, k, s, p + 1) else p
  }

  /** e is where the run ends: all characters before it are of the kind, and the one at it is not. */
  ghost predicate IsRun(t: Tables, k: Kind, s: string, p: nat, e: nat) {
    && p <= e <= |s|
    && (forall i | p <= i < e :: InKind(t, k, s[i]))
    && (e < |s| ==> !InKind(t, k, s[e]))
  }

  lemma {:induction false} RunIs(t: Tables, k: Kind, s: string, p: nat)
    requires p <= |s|
    ensures IsRun(t, k, s, p, Run(t, k, s, p))
    decreases |s| - p
  {
    if p < |s| && InKind(t, k, s[p]) {
      RunIs(t, k, s, p + 1);
    }
  }

  lemma {:induction false} RunUnique(t: Tables, k: Kind, s: string, p: nat, e: nat)
    requires IsRun(t, k, s, p, e)
    ensures Run(t, k, s, p) == e
    decreases |s| - p
  {
    if p < e {
      RunUnique(t, k, s, p + 1, e);
    }
  }

  /** Where the closing quote of a string is, or the end of the input. */
  function StringEnd(s: string, p: nat, quote: char, escaped: bool): (z: nat)
    requires p <= |s|
    ensures p <= z <= |s| && (z < |s| ==> s[z] == quote)
    decreases |s| - p
  {
    if p == |s| then p
    else if !escaped && s[p] == quote then p
    else StringEnd(s, p + 1, quote, !escaped && s[p] == '\\')
  }

  /** Where the slash that closes a block comment is, or the end of the input. */
  function BlockEnd(s: string, p: nat, star: bool): (z: nat)
    requires p <= |s| && (star ==> p > 0 && s[p - 1] == '*')
    ensures p <= z <= |s| && (z < |s| ==> s[z] == '/' && z > 0 && s[z - 1] == '*' && (!star ==> z > p))
    decreases |s| - p
  {
    if p == |s| then p
    else if star && s[p] == '/' then p
    else BlockEnd(s, p + 1, s[p] == '*')
  }

  predicate Is(s: string, p: nat, c: char) {
    p < |s| && s[p] == c
  }

  // ---------------------------------------------------------------------------
  // One round

  datatype CommentKind = LineComment | DocLine | BlockComment | DocBlock

  datatype Comment = Comment(kind: CommentKind, from: nat, to: nat, text: string)

  datatype LexicalError =
    | EndOfFileInComment(from: nat, to: nat)
    | EndOfFileInString(from: nat, to: nat)
    | EndofFileInHex(from: nat, to: nat)
    | MissingNumber(from: nat, to: nat)
    | InvalidCharacterInHexLiteral(from: nat, to: nat, c: char)
    | UnrecognisedToken(from: nat, to: nat, text: string)
    | MissingExponent(from: nat, to: nat)

  /** A token and where it is in the input. */
  datatype Spanned = Spanned(from: nat, token: Token, to: nat)

  datatype Out = Got(value: Spanned) | Nothing | End

  /** A round yields a token, or nothing so that the loop goes on, or the end; and moves to pos. */
  datatype Step = Step(out: Out, pos: nat, comments: seq<Comment>, errors: seq<LexicalError>)

  function Yield(from: nat, token: Token, to: nat): Step {
    Step(Got(Spanned(from, token, to)), to, [], [])
  }

  function Complain(pos: nat, error: LexicalError): Step {
    Step(Nothing, pos, [], [error])
  }

  function Stop(pos: nat, error: LexicalError): Step {
    Step(End, pos, [], [error])
  }

  function WordToken(t: Tables, id: string): Token {
    if id in t.keywords then Keyword(t.keywords[id]) else Identifier(id)
  }

  function Past(s: string, z: nat): nat
  {
    if z < |s| then z + 1 else |s|
  }

  function UnicodeStep(t: Tables, s: string, p: nat, e: nat): Step
    requires p < e < |s|
  {
    var z := StringEnd(s, e + 1, s[e], false);
    if z < |s| then Yield(p, StringLiteral(true, s[e + 1..z]), z + 1)
    else Step(Got(Spanned(p, WordToken(t, s[p..e]), e)), |s|, [], [EndOfFileInString(p, |s|)])
  }

  function HexStep(t: Tables, s: string, p: nat, e: nat): Step
    requires p < e < |s|
  {
    var h := Run(t, HexDigits, s, e + 1);
    if Is(s, h, s[e]) then Yield(p, HexLiteral(s[p..h + 1]), h + 1)
    else if h < |s| then Complain(Past(s, Run(t, Until(s[e]), s, h + 1)), InvalidCharacterInHexLiteral(h, h + 1, s[h]))
    else Stop(|s|, EndOfFileInString(p, |s|))
  }

  function AddressStep(t: Tables, s: string, p: nat, e: nat): Step
    requires p < e < |s|
  {
    var z := Run(t, Until(s[e]), s, e + 1);
    if z < |s| then Yield(p, AddressLiteral(s[p..z + 1]), z + 1)
    else Stop(|s|, EndOfFileInString(p, |s|))
  }

  function WordStep(t: Tables, s: string, p: nat): Step
    requires p < |s|
  {
    var e := Run(t, Word, s, p + 1);
    var quoted := e < |s| && IsQuote(s[e]);
    if quoted && s[p..e] == "unicode" then UnicodeStep(t, s, p, e)
    else if quoted && s[p..e] == "hex" then HexStep(t, s, p, e)
    else if quoted && s[p..e] == "address" then AddressStep(t, s, p, e)
    else Yield(p, WordToken(t, s[p..e]), e)
  }

  function StringStep(s: string, p: nat): Step
    requires p < |s|
  {
    var z := StringEnd(s, p + 1, s[p], false);
    if z < |s| then Yield(p, StringLiteral(false, s[p + 1..z]), z + 1)
    else Complain(|s|, EndOfFileInString(p, |s|))
  }

  function LineStep(t: Tables, s: string, p: nat): Step
    requires p + 2 <= |s|
  {
    if p + 2 < |s| && !InKind(t, Line, s[p + 2]) then
      Step(Nothing, p + 3, [Comment(LineComment, p, p + 3, s[p..p + 3])], [])
    else
      var doc := Is(s, p + 2, '/') && !Is(s, p + 3, '/');
      var e := Run(t, Line, s, Past(s, p + 2));
      Step(Nothing, Past(s, e), [Comment(if doc then DocLine else LineComment, p, e, s[p..e])], [])
  }

  function BlockStep(s: string, p: nat): Step
    requires p + 2 <= |s|
  {
    var z := BlockEnd(s, p + 2, false);
    if z < |s| then
      var doc := Is(s, p + 2, '*') && z > p + 3;
      Step(Nothing, z + 1, [Comment(if doc then DocBlock else BlockComment, p, z + 1, s[p..z + 1])], [])
    else Stop(|s|, EndOfFileInComment(p, |s|))
  }

  function SlashStep(t: Tables, s: string, p: nat): Step
    requires p < |s|
  {
    if Is(s, p + 1, '=') then Yield(p, Symbol("/="), p + 2)
    else if Is(s, p + 1, '/') then LineStep(t, s, p)
    else if Is(s, p + 1, '*') then BlockStep(s, p)
    else Yield(p, Symbol("/"), p + 1)
  }

  function HexNumberStep(t: Tables, s: string, p: nat): Step
    requires p + 2 <= |s|
  {
    if p + 2 == |s| then Stop(|s|, EndofFileInHex(p, |s|))
    else if !IsHexDigit(s[p + 2]) then Complain(p + 3, MissingNumber(p, p + 1))
    else
      var e := Run(t, HexDigits, s, p + 3);
      Yield(p, HexNumber(s[p..e]), e)
  }

  /** A fraction follows at e: a point and a digit. */
  predicate HasFraction(s: string, e: nat) {
    Is(s, e, '.') && e + 1 < |s| && IsDigit(s[e + 1])
  }

  /** The exponent at e: where its text starts, and where it ends if it has a digit. */
  datatype Exp = NoExp | Exp(from: nat, to: nat) | Missing(pos: nat)

  function ExpAt(t: Tables, s: string, e: nat): (x: Exp)
    ensures x.Exp? ==> e < x.from < x.to <= |s|
    ensures x.Missing? ==> e < x.pos <= |s|
  {
    if Is(s, e, 'e') || Is(s, e, 'E') then
      var d := Run(t, Dashes, s, e + 1);
      var x := Run(t, Digits, s, d);
      if d < x then Exp(e + 1, x) else Missing(d)
    else NoExp
  }

  /** The text of an exponent, without its letter. */
  function ExpText(s: string, x: Exp): string {
    if x.Exp? && x.from <= x.to <= |s| then s[x.from..x.to] else ""
  }

  /** A number from p on, of which the integer part ends at i and the fraction, if any, is f..e. */
  function NumberEnd(t: Tables, s: string, p: nat, i: nat, fraction: bool, f: nat, e: nat): Step
    requires p <= i <= |s| && f <= e <= |s|
  {
    var x := ExpAt(t, s, e);
    if x.Missing? then Complain(x.pos, MissingExponent(p, |s|))
    else
      var k := if fraction then RationalNumber(s[p..i], s[f..e], ExpText(s, x)) else Number(s[p..i], ExpText(s, x));
      Yield(p, k, if x.Exp? then x.to else e)
  }

  /** A decimal number from p on, of which the integer part ends at i. */
  function DecimalStep(t: Tables, s: string, p: nat, i: nat, semver: bool): Step
    requires p < i <= |s|
  {
    if semver then Yield(p, Number(s[p..i], ""), i)
    else if HasFraction(s, i) then NumberEnd(t, s, p, i, true, i + 1, Run(t, Digits, s, i + 1))
    else NumberEnd(t, s, p, i, false, i, i)
  }

  function NumberStep(t: Tables, s: string, p: nat, semver: bool): Step
    requires p < |s|
  {
    if s[p] == '0' && Is(s, p + 1, 'x') then HexNumberStep(t, s, p)
    else DecimalStep(t, s, p, Run(t, Digits, s, p + 1), semver)
  }

  /** A number that starts with its point; without an exponent it should have, it ends the tokens. */
  function PointStep(t: Tables, s: string, p: nat): Step
    requires p < |s|
  {
    var r := NumberEnd(t, s, p, p, true, p + 1, Run(t, Digits, s, p + 1));
    if r.out.Nothing? then r.(out := End) else r
  }

  function AnnotationStep(t: Tables, s: string, p: nat): Step
    requires p < |s|
  {
    var e := Run(t, Word, s, p + 1);
    if e == p + 1 then Complain(e, UnrecognisedToken(p, p + 1, s[p..e]))
    else Yield(p, Annotation(s[p + 1..e]), e)
  }

  predicate IsPunctuation(c: char) {
    || c == ';' || c == ',' || c == '(' || c == ')' || c == '{' || c == '}' || c == '~' || c == '[' || c == ']'
    || c == '?' || c == '.'
  }

  /** Characters that stand for an operator twice over. */
  predicate Doubles(c: char) {
    c == '|' || c == '&' || c == '+' || c == '-' || c == '*' || c == '<' || c == '>'
  }

  predicate StartsOperator(c: char) {
    c == '=' || c == '!' || c == '^' || c == '%' || c == ':' || Doubles(c)
  }

  /** The operator character c and d behind it are one operator. */
  predicate Joins(c: char, d: char) {
    d == '=' || (c == d && Doubles(c)) || ((c == '=' || c == '-') && d == '>')
  }

  /** The longest operator or punctuation at p, or nothing. */
  function Operator(s: string, p: nat): (text: string)
    requires p < |s|
    ensures p + |text| <= |s| && text == s[p..p + |text|]
  {
    var c := s[p];
    if IsPunctuation(c) then [c]
    else if !StartsOperator(c) then ""
    else if (c == '<' || c == '>') && Is(s, p + 1, c) && Is(s, p + 2, '=') then [c, c, '=']
    else if p + 1 < |s| && Joins(c, s[p + 1]) then [c, s[p + 1]]
    else [c]
  }

  /** The operators and punctuation of the language, by length. */
  predicate IsOne(c: char) {
    || c == ';' || c == ',' || c == '(' || c == ')' || c == '{' || c == '}' || c == '~' || c == '[' || c == ']'
    || c == '?' || c == '.' || c == ':' || c == '=' || c == '!' || c == '|' || c == '&' || c == '^' || c == '+'
    || c == '-' || c == '*'
    || c == '%' || c == '<' || c == '>'
  }

  predicate IsTwo(x: (char, char)) {
    || x == ('=', '=') || x == ('=', '>') || x == ('!', '=') || x == ('|', '=') || x == ('|', '|') || x == ('&', '=')
    || x == ('&', '&') || x == ('^', '=') || x == ('+', '=') || x == ('+', '+') || x == ('-', '=') || x == ('-', '-')
    || x == ('-', '>') || x == ('*', '=') || x == ('*', '*') || x == ('%', '=') || x == ('<', '<') || x == ('<', '=')
    || x == ('>', '>') || x == ('>', '=') || x == (':', '=')
  }

  predicate IsThree(x: (char, char, char)) {
    x == ('<', '<', '=') || x == ('>', '>', '=')
  }

  predicate IsSymbol(x: string) {
    match |x|
    case 1 => IsOne(x[0])
    case 2 => IsTwo((x[0], x[1]))
    case 3 => IsThree((x[0], x[1], x[2]))
    case _ => false
  }

  /** The longest symbol of the language that the text at p starts with is taken. */
  lemma LongestOperator(s: string, p: nat)
    requires p < |s|
    ensures var x := Operator(s, p);
      && (x == "" || IsSymbol(x))
      && forall e | p <= e <= |s| && IsSymbol(s[p..e]) :: e <= p + |x|
  {
    var x := Operator(s, p);
    forall e | p <= e <= |s| && IsSymbol(s[p..e])
      ensures e <= p + |x|
    {
      var y := s[p..e];
      assert y[0] == s[p];
      if |y| > 1 {
        assert y[1] == s[p + 1];
      }
      if |y| > 2 {
        assert y[2] == s[p + 2];
      }
    }
  }

  function UnknownStep(t: Tables, s: string, p: nat): Step
    requires p < |s|
  {
    var e := Run(t, Dark, s, p + 1);
    Complain(Past(s, e), UnrecognisedToken(p, e, s[p..e]))
  }

  function StepAt(t: Tables, s: string, p: nat, semver: bool): Step
    requires p < |s|
  {
    var c := s[p];
    if Starts(t, c) then WordStep(t, s, p)
    else if IsQuote(c) then StringStep(s, p)
    else if c == '/' then SlashStep(t, s, p)
    else if IsDigit(c) then NumberStep(t, s, p, semver)
    else if c == '@' then AnnotationStep(t, s, p)
    else if c == '.' && !semver && p + 1 < |s| && IsDigit(s[p + 1]) then PointStep(t, s, p)
    else if Operator(s, p) != "" then Yield(p, Symbol(Operator(s, p)), p + |Operator(s, p)|)
    else if t.isWhitespace(c) then Step(Nothing, p + 1, [], [])
    else UnknownStep(t, s, p)
  }

  // ---------------------------------------------------------------------------
  // Progress, spans and comments

  predicate IsNewline(c: char) {
    c == '\n' || c == '\r'
  }

  /** A line comment runs to the end of its line; only when it is empty does it take the newline in. */
  ghost predicate IsLine(text: string, doc: bool) {
    && |text| >= 2 && text[..2] == "//"
    && (doc <==> Is(text, 2, '/') && !Is(text, 3, '/'))
    && forall i | 0 <= i < |text| && IsNewline(text[i]) :: i == 2 && |text| == 3
  }

  /** A block comment ends at the first closing mark after its opening one. */
  ghost predicate IsBlock(text: string, doc: bool) {
    && |text| >= 4 && text[..2] == "/*"
    && (doc <==> text[2] == '*' && |text| > 4)
    && forall i | 2 <= i < |text| - 1 :: Closes(text, i) <==> i == |text| - 2
  }

  ghost predicate Closes(s: string, i: nat) {
    Is(s, i, '*') && Is(s, i + 1, '/')
  }

  /** A line comment that starts at from ends at to: before the newline, or behind it if that comes at once. */
  ghost predicate EndsLine(s: string, from: nat, to: nat) {
    if from + 2 < |s| && IsNewline(s[from + 2]) then to == from + 3
    else to == |s| || (to < |s| && IsNewline(s[to]))
  }

  ghost predicate IsComment(s: string, c: Comment) {
    && c.from < c.to <= |s| && c.text == s[c.from..c.to]
    && match c.kind
       case LineComment => IsLine(c.text, false) && EndsLine(s, c.from, c.to)
       case DocLine => IsLine(c.text, true) && EndsLine(s, c.from, c.to)
       case BlockComment => IsBlock(c.text, false)
       case DocBlock => IsBlock(c.text, true)
  }

  /** All that a round yields lies in the characters it moves over, which are some. */
  ghost predicate Within(s: string, p: nat, r: Step) {
    && p < r.pos <= |s|
    && (r.out.Got? ==> p == r.out.value.from < r.out.value.to <= r.pos && r.comments == [])
    && (forall c | c in r.comments :: r.comments == [c] && p <= c.from && c.to <= r.pos && IsComment(s, c))
  }

  /** Only one comment can start at a place. */
  lemma CommentUnique(s: string, c: Comment, c': Comment)
    requires IsComment(s, c) && IsComment(s, c') && c.from == c'.from
    ensures c == c'
  {
    SameOpening(s, c);
    SameOpening(s, c');
    if c.to < c'.to {
      ShorterComment(s, c, c');
    } else if c'.to < c.to {
      ShorterComment(s, c', c);
    }
  }

  lemma SameOpening(s: string, c: Comment)
    requires IsComment(s, c)
    ensures c.from + 1 < |s| && s[c.from] == '/'
    ensures s[c.from + 1] == if c.kind.LineComment? || c.kind.DocLine? then '/' else '*'
  {
    assert s[c.from] == c.text[..2][0] && s[c.from + 1] == c.text[..2][1];
  }

  lemma ShorterComment(s: string, c: Comment, c': Comment)
    requires IsComment(s, c) && IsComment(s, c') && c.from == c'.from && c.to < c'.to
    ensures false
  {
    SameOpening(s, c);
    SameOpening(s, c');
    var n := c.to - c.from;
    if !(c.kind.LineComment? || c.kind.DocLine?) {
      assert Closes(c.text, n - 2);
      assert c'.text[n - 2] == c.text[n - 2] && c'.text[n - 1] == c.text[n - 1];
      assert Closes(c'.text, n - 2);
    }
  }

  lemma LineWithin(t: Tables, s: string, p: nat)
    requires p + 2 <= |s| && s[p..p + 2] == "//"
    ensures Within(s, p, LineStep(t, s, p))
  {
    assert s[p] == s[p..p + 2][0] && s[p + 1] == s[p..p + 2][1];
    if !(p + 2 < |s| && !InKind(t, Line, s[p + 2])) {
      var from := Past(s, p + 2);
      RunIs(t, Line, s, from);
      var e := Run(t, Line, s, from);
      forall i | p <= i < e
        ensures !IsNewline(s[i])
      {
        assert i < from || InKind(t, Line, s[i]);
      }
      assert s[p..e][..2] == s[p..p + 2];
      assert e < |s| ==> !InKind(t, Line, s[e]);
    } else {
      assert s[p..p + 3][..2] == s[p..p + 2];
    }
  }

  /** The slash found is the first one after a star that is not in the opening mark. */
  lemma {:induction false} BlockEndFirst(s: string, p: nat, star: bool, i: nat)
    requires p <= |s| && (star ==> p > 0 && s[p - 1] == '*')
    requires (if star then p - 1 else p) <= i < BlockEnd(s, p, star) - 1
    ensures !Closes(s, i)
    decreases |s| - p
  {
    if !(star && s[p] == '/') && (i > p || (i == p && s[p] == '*')) {
      BlockEndFirst(s, p + 1, s[p] == '*', i);
    }
  }

  lemma BlockWithin(s: string, p: nat)
    requires p + 2 <= |s| && s[p..p + 2] == "/*"
    ensures Within(s, p, BlockStep(s, p))
  {
    var z := BlockEnd(s, p + 2, false);
    if z < |s| {
      var text := s[p..z + 1];
      assert text[..2] == s[p..p + 2];
      forall i | 2 <= i < |text| - 1
        ensures Closes(text, i) <==> i == |text| - 2
      {
        assert Closes(text, i) <==> Closes(s, p + i);
        if i < |text| - 2 {
          BlockEndFirst(s, p + 2, false, p + i);
        }
      }
    }
  }

  lemma NumberWithin(t: Tables, s: string, p: nat, semver: bool)
    requires p < |s|
    ensures Within(s, p, NumberStep(t, s, p, semver))
    ensures Within(s, p, PointStep(t, s, p))
  {
  }

  lemma WordWithin(t: Tables, s: string, p: nat)
    requires p < |s|
    ensures Within(s, p, WordStep(t, s, p))
  {
  }

  lemma SlashWithin(t: Tables, s: string, p: nat)
    requires Is(s, p, '/')
    ensures Within(s, p, SlashStep(t, s, p))
  {
    if Is(s, p + 1, '/') {
      LineWithin(t, s, p);
    } else if Is(s, p + 1, '*') {
      BlockWithin(s, p);
    }
  }

  lemma OtherWithin(t: Tables, s: string, p: nat)
    requires p < |s|
    ensures Within(s, p, StringStep(s, p)) && Within(s, p, AnnotationStep(t, s, p))
    ensures Within(s, p, UnknownStep(t, s, p))
  {
  }

  lemma StepWithin(t: Tables, s: string, p: nat, semver: bool)
    requires p < |s|
    ensures Within(s, p, StepAt(t, s, p, semver))
  {
    var c := s[p];
    if Starts(t, c) {
      WordWithin(t, s, p);
    } else if c == '/' {
      SlashWithin(t, s, p);
    } else if IsDigit(c) || c == '.' {
      NumberWithin(t, s, p, semver);
    } else {
      OtherWithin(t, s, p);
    }
  }

  // ---------------------------------------------------------------------------
  // The source text of a token

  /** The exponent with either letter. */
  ghost predicate IsExponent(x: string, exponent: string) {
    x == Exponent(exponent) || (exponent != "" && x == "E" + exponent)
  }

  ghost predicate WritesNumber(x: string, y: string, exponent: string) {
    |y| <= |x| && x[..|y|] == y && IsExponent(x[|y|..], exponent)
  }

  /** The text x is one way to write token k. */
  ghost predicate Writes(t: Tables, x: string, k: Token) {
    match k
    case Identifier(name) => x == name && name !in t.keywords
    case StringLiteral(unicode, body) =>
      exists q | q in {'"', '\''} :: x == (if unicode then "unicode" else "") + [q] + body + [q]
    case Keyword(word) => x in t.keywords && t.keywords[x] == word
    case Number(integer, exponent) => WritesNumber(x, integer, exponent)
    case RationalNumber(integer, fraction, exponent) => WritesNumber(x, integer + "." + fraction, exponent)
    case _ => x == Display(k)
  }

  /** What a round yields is what its span of the source writes. */
  ghost predicate Faithful(t: Tables, s: string, r: Step) {
    r.out.Got? ==>
      var k := r.out.value;
      k.from <= k.to <= |s| && Writes(t, s[k.from..k.to], k.token)
  }

  lemma QuotedText(s: string, p: nat, e: nat, z: nat, word: string)
    requires p <= e < z < |s| && s[p..e] == word && s[e] == s[z]
    ensures s[p..z + 1] == word + [s[e]] + s[e + 1..z] + [s[e]]
  {
  }

  lemma ExponentText(t: Tables, s: string, e: nat, x: Exp)
    requires e <= |s| && x == ExpAt(t, s, e) && !x.Missing?
    ensures var to := if x.Exp? then x.to else e; IsExponent(s[e..to], ExpText(s, x))
  {
    if x.Exp? {
      ExponentLetter(s[e..x.to], s[e], s[e + 1..x.to]);
    }
  }

  lemma ExponentLetter(x: string, c: char, exponent: string)
    requires |x| == |exponent| + 1 && x[0] == c && x[1..] == exponent && exponent != "" && (c == 'e' || c == 'E')
    ensures IsExponent(x, exponent)
  {
    assert x == [c] + exponent;
  }

  lemma SplitText(s: string, p: nat, e: nat, to: nat, x: string, y: string, exponent: string)
    requires p <= e <= to <= |s| && x == s[p..to] && y == s[p..e] && IsExponent(s[e..to], exponent)
    ensures WritesNumber(x, y, exponent)
  {
    assert x[|y|..] == s[e..to];
  }

  lemma PointBetween(s: string, p: nat, i: nat, e: nat)
    requires p <= i < e <= |s| && s[i] == '.'
    ensures s[p..e] == s[p..i] + "." + s[i + 1..e]
  {
  }

  lemma NumberText(t: Tables, s: string, p: nat, i: nat, fraction: bool, f: nat, e: nat)
    requires p <= i <= |s| && (if fraction then Is(s, i, '.') && f == i + 1 <= e <= |s| else f == e == i)
    ensures Faithful(t, s, NumberEnd(t, s, p, i, fraction, f, e))
  {
    var x := ExpAt(t, s, e);
    if !x.Missing? {
      var to := if x.Exp? then x.to else e;
      ExponentText(t, s, e, x);
      if fraction {
        PointBetween(s, p, i, e);
        SplitText(s, p, e, to, s[p..to], s[p..i] + "." + s[f..e], ExpText(s, x));
      } else {
        SplitText(s, p, e, to, s[p..to], s[p..i], ExpText(s, x));
      }
    }
  }

  lemma UnicodeText(t: Tables, s: string, p: nat, e: nat)
    requires p < e < |s| && IsQuote(s[e]) && s[p..e] == "unicode"
    ensures Faithful(t, s, UnicodeStep(t, s, p, e))
  {
    var z := StringEnd(s, e + 1, s[e], false);
    if z < |s| {
      QuotedText(s, p, e, z, "unicode");
    }
  }

  lemma LiteralText(t: Tables, s: string, p: nat, e: nat)
    requires p < e < |s|
    ensures Faithful(t, s, HexStep(t, s, p, e)) && Faithful(t, s, AddressStep(t, s, p, e))
  {
  }

  lemma WordText(t: Tables, s: string, p: nat)
    requires p < |s|
    ensures Faithful(t, s, WordStep(t, s, p))
  {
    var e := Run(t, Word, s, p + 1);
    if e < |s| && IsQuote(s[e]) {
      if s[p..e] == "unicode" {
        UnicodeText(t, s, p, e);
      } else {
        LiteralText(t, s, p, e);
      }
    }
  }

  lemma StringText(t: Tables, s: string, p: nat)
    requires p < |s| && IsQuote(s[p])
    ensures Faithful(t, s, StringStep(s, p))
  {
    var z := StringEnd(s, p + 1, s[p], false);
    if z < |s| {
      QuotedText(s, p, p, z, "");
    }
  }

  lemma DigitsText(t: Tables, s: string, p: nat, semver: bool)
    requires p < |s|
    ensures Faithful(t, s, NumberStep(t, s, p, semver))
  {
    if !(s[p] == '0' && Is(s, p + 1, 'x')) {
      DecimalText(t, s, p, Run(t, Digits, s, p + 1), semver);
    }
  }

  lemma DecimalText(t: Tables, s: string, p: nat, i: nat, semver: bool)
    requires p < i <= |s|
    ensures Faithful(t, s, DecimalStep(t, s, p, i, semver))
  {
    if semver {
      SplitText(s, p, i, i, s[p..i], s[p..i], "");
    } else if HasFraction(s, i) {
      NumberText(t, s, p, i, true, i + 1, Run(t, Digits, s, i + 1));
    } else {
      NumberText(t, s, p, i, false, i, i);
    }
  }

  lemma SlashText(t: Tables, s: string, p: nat)
    requires Is(s, p, '/')
    ensures Faithful(t, s, SlashStep(t, s, p))
  {
    assert s[p..p + 1] == "/";
    if Is(s, p + 1, '=') {
      assert s[p..p + 2] == "/=";
    }
  }

  lemma AnnotationText(t: Tables, s: string, p: nat)
    requires Is(s, p, '@')
    ensures Faithful(t, s, AnnotationStep(t, s, p))
  {
    var e := Run(t, Word, s, p + 1);
    assert s[p..e] == "@" + s[p + 1..e];
  }

  lemma PointText(t: Tables, s: string, p: nat)
    requires Is(s, p, '.')
    ensures Faithful(t, s, PointStep(t, s, p))
  {
    NumberText(t, s, p, p, true, p + 1, Run(t, Digits, s, p + 1));
  }

  /** Every token is written by the characters of its span. */
  lemma StepText(t: Tables, s: string, p: nat, semver: bool)
    requires p < |s|
    ensures Faithful(t, s, StepAt(t, s, p, semver))
  {
    var c := s[p];
    if Starts(t, c) {
      WordText(t, s, p);
    } else if IsQuote(c) {
      StringText(t, s, p);
    } else if IsDigit(c) {
      DigitsText(t, s, p, semver);
    } else if c == '/' {
      SlashText(t, s, p);
    } else if c == '@' {
      AnnotationText(t, s, p);
    } else if c == '.' {
      PointText(t, s, p);
    }
  }

  // ---------------------------------------------------------------------------
  // Whole runs

  /** Version mode and the last two tokens. */
  datatype Mode = Mode(semver: bool, older: Option<Token>, newer: Option<Token>)

  const START := Mode(false, None, None)

  /** Whether the next token is read in version mode: after pragma and a name, up to a semicolon. */
  function InVersion(m: Mode): bool {
    m.semver || (m.older == Some(Keyword("pragma")) && m.newer.Some? && m.newer.value.Identifier?)
  }

  function After(m: Mode, k: Token): Mode {
    Mode(InVersion(m) && k != Symbol(";"), m.newer, Some(k))
  }

  /** The mode after the given tokens have been read. */
  ghost function ModeAfter(ks: seq<Token>): Mode {
    if ks == [] then START else After(ModeAfter(ks[..|ks| - 1]), ks[|ks| - 1])
  }

  /** Tokens i and i + 1 are pragma and a name, and no semicolon has come since. */
  ghost predicate OpenPragma(ks: seq<Token>, i: nat) {
    && i + 1 < |ks| && ks[i] == Keyword("pragma") && ks[i + 1].Identifier?
    && forall j | i + 2 <= j < |ks| :: ks[j] != Symbol(";")
  }

  /** Version mode is on exactly in a pragma: after the word and a name, up to the semicolon. */
  lemma {:induction false} VersionMode(ks: seq<Token>)
    ensures InVersion(ModeAfter(ks)) <==> exists i: nat :: OpenPragma(ks, i)
    ensures ModeAfter(ks).newer == if |ks| > 0 then Some(ks[|ks| - 1]) else None
    ensures ModeAfter(ks).older == if |ks| > 1 then Some(ks[|ks| - 2]) else None
  {
    if ks != [] {
      var n := |ks| - 1;
      var p := ks[..n];
      VersionMode(p);
      if n > 0 && ks[n - 1] == Keyword("pragma") && ks[n].Identifier? {
        assert OpenPragma(ks, n - 1);
      } else if InVersion(ModeAfter(p)) && ks[n] != Symbol(";") {
        var i: nat :| OpenPragma(p, i);
        assert OpenPragma(ks, i);
      }
      forall i: nat | OpenPragma(ks, i)
        ensures InVersion(ModeAfter(ks))
      {
        if i + 1 < n {
          assert OpenPragma(p, i);
        }
      }
    }
  }

  datatype Output = Output(tokens: seq<Spanned>, comments: seq<Comment>, errors: seq<LexicalError>)

  /** All that is read from position p on, until the lexer first reports the end. */
  function Lex(t: Tables, s: string, p: nat, m: Mode): Output
    requires p <= |s|
    decreases |s| - p
  {
    if p == |s| then Output([], [], [])
    else
      StepWithin(t, s, p, InVersion(m));
      var r := StepAt(t, s, p, InVersion(m));
      match r.out
      case Got(k) =>
        var rest := Lex(t, s, r.pos, After(m, k.token));
        Output([k] + rest.tokens, r.comments + rest.comments, r.errors + rest.errors)
      case Nothing =>
        var rest := Lex(t, s, r.pos, m);
        Output(rest.tokens, r.comments + rest.comments, r.errors + rest.errors)
      case End => Output([], r.comments, r.errors)
  }

  ghost predicate TokenIn(k: Spanned, p: nat, limit: nat) {
    p <= k.from < k.to <= limit
  }

  ghost predicate CommentIn(s: string, c: Comment, p: nat) {
    p <= c.from && IsComment(s, c)
  }

  ghost predicate Apart(k: Spanned, c: Comment) {
    k.to <= c.from || c.to <= k.from
  }

  ghost predicate TokensOrdered(ks: seq<Spanned>) {
    forall i, j | 0 <= i < j < |ks| :: ks[i].to <= ks[j].from
  }

  ghost predicate CommentsOrdered(cs: seq<Comment>) {
    forall i, j | 0 <= i < j < |cs| :: cs[i].to <= cs[j].from
  }

  /** Tokens and comments are not empty, in bounds, in order, and do not overlap; comments are their source text. */
  ghost predicate Neat(s: string, p: nat, o: Output) {
    && (forall k | k in o.tokens :: TokenIn(k, p, |s|))
    && (forall c | c in o.comments :: CommentIn(s, c, p))
    && TokensOrdered(o.tokens) && CommentsOrdered(o.comments)
    && (forall k, c | k in o.tokens && c in o.comments :: Apart(k, c))
  }

  lemma NeatToken(s: string, p: nat, k: Spanned, pos: nat, o: Output, o': Output)
    requires Neat(s, pos, o) && TokenIn(k, p, pos) && pos <= |s|
    requires o'.tokens == [k] + o.tokens && o'.comments == o.comments
    ensures Neat(s, p, o')
  {
    forall c | c in o.comments
      ensures Apart(k, c) && CommentIn(s, c, p)
    {
      assert CommentIn(s, c, pos);
    }
    forall k' | k' in o.tokens
      ensures TokenIn(k', p, |s|) && k.to <= k'.from
    {
      assert TokenIn(k', pos, |s|);
    }
  }

  lemma NeatComment(s: string, p: nat, c: Comment, pos: nat, o: Output, o': Output)
    requires Neat(s, pos, o) && CommentIn(s, c, p) && c.to <= pos
    requires o'.tokens == o.tokens && o'.comments == [c] + o.comments
    ensures Neat(s, p, o')
  {
    forall k | k in o.tokens
      ensures Apart(k, c) && TokenIn(k, p, |s|)
    {
      assert TokenIn(k, pos, |s|);
    }
    forall c' | c' in o.comments
      ensures CommentIn(s, c', p) && c.to <= c'.from
    {
      assert CommentIn(s, c', pos);
    }
  }

  lemma NeatNothing(s: string, p: nat, pos: nat, o: Output, o': Output)
    requires Neat(s, pos, o) && p <= pos && o'.tokens == o.tokens && o'.comments == o.comments
    ensures Neat(s, p, o')
  {
    forall k | k in o.tokens
      ensures TokenIn(k, p, |s|)
    {
      assert TokenIn(k, pos, |s|);
    }
    forall c | c in o.comments
      ensures CommentIn(s, c, p)
    {
      assert CommentIn(s, c, pos);
    }
  }

  lemma {:induction false} Spans(t: Tables, s: string, p: nat, m: Mode)
    requires p <= |s|
    ensures Neat(s, p, Lex(t, s, p, m))
    decreases |s| - p
  {
    if p < |s| {
      StepWithin(t, s, p, InVersion(m));
      var r := StepAt(t, s, p, InVersion(m));
      var o := Lex(t, s, p, m);
      if r.out.Got? {
        Spans(t, s, r.pos, After(m, r.out.value.token));
        NeatToken(s, p, r.out.value, r.pos, Lex(t, s, r.pos, After(m, r.out.value.token)), o);
      } else {
        var rest := if r.out.Nothing? then Lex(t, s, r.pos, m) else Output([], [], []);
        if r.out.Nothing? {
          Spans(t, s, r.pos, m);
        }
        if r.comments == [] {
          NeatNothing(s, p, r.pos, rest, o);
        } else {
          NeatComment(s, p, r.comments[0], r.pos, rest, o);
        }
      }
    }
  }

  /** An error lies in the input from p on, and what it complains about is there. */
  ghost predicate ErrorIn(s: string, e: LexicalError, p: nat) {
    && p <= e.from < e.to <= |s|
    && match e
       case InvalidCharacterInHexLiteral(from, to, c) => to == from + 1 && c == s[from] && !IsHexDigit(c) && c != '_'
       case UnrecognisedToken(from, to, text) => text == s[from..to]
       case MissingNumber(from, to) => to == from + 1 && s[from] == '0' && Is(s, from + 1, 'x')
       case MissingExponent(from, to) => to == |s| && (IsDigit(s[from]) || s[from] == '.')
       case EndofFileInHex(from, to) => to == |s| && s[from..to] == "0x"
       case EndOfFileInComment(from, to) => to == |s| && Is(s, from, '/') && Is(s, from + 1, '*')
       case EndOfFileInString(from, to) => to == |s|
  }

  /** The error does not start inside the span. */
  ghost predicate Clear(from: nat, to: nat, e: LexicalError) {
    to <= e.from || e.from <= from
  }

  ghost predicate ErrorsOrdered(es: seq<LexicalError>) {
    forall i, j | 0 <= i < j < |es| :: es[i].from < es[j].from
  }

  /** Errors are in bounds and in order, one at a place, and none starts inside a token or a comment. */
  ghost predicate Complains(s: string, p: nat, o: Output) {
    && (forall e | e in o.errors :: ErrorIn(s, e, p))
    && ErrorsOrdered(o.errors)
    && (forall k, e | k in o.tokens && e in o.errors :: Clear(k.from, k.to, e))
    && (forall c, e | c in o.comments && e in o.errors :: Clear(c.from, c.to, e))
  }

  /** A round makes one error at most, at something it moves over and no later than the token it yields. */
  ghost predicate Blames(s: string, p: nat, r: Step) {
    |r.errors| <= 1 && forall e | e in r.errors ::
      && ErrorIn(s, e, p) && e.from < r.pos && r.comments == []
      && (r.out.Got? ==> e.from <= r.out.value.from)
  }

  lemma WordErrors(t: Tables, s: string, p: nat)
    requires p < |s|
    ensures Blames(s, p, WordStep(t, s, p))
  {
    var e := Run(t, Word, s, p + 1);
    if e < |s| {
      RunIs(t, HexDigits, s, e + 1);
    }
  }

  lemma NumberErrors(t: Tables, s: string, p: nat, semver: bool)
    requires p < |s|
    ensures IsDigit(s[p]) ==> Blames(s, p, NumberStep(t, s, p, semver))
    ensures s[p] == '.' ==> Blames(s, p, PointStep(t, s, p))
  {
    if p + 2 == |s| {
      assert s[p..|s|] == [s[p], s[p + 1]];
    }
  }

  lemma OtherErrors(t: Tables, s: string, p: nat)
    requires p < |s|
    ensures Blames(s, p, StringStep(s, p)) && Blames(s, p, UnknownStep(t, s, p))
    ensures Blames(s, p, AnnotationStep(t, s, p))
    ensures s[p] == '/' ==> Blames(s, p, SlashStep(t, s, p))
  {
  }

  lemma StepErrors(t: Tables, s: string, p: nat, semver: bool)
    requires p < |s|
    ensures Blames(s, p, StepAt(t, s, p, semver))
  {
    if Starts(t, s[p]) {
      WordErrors(t, s, p);
    } else if IsDigit(s[p]) || s[p] == '.' {
      NumberErrors(t, s, p, semver);
      OtherErrors(t, s, p);
    } else {
      OtherErrors(t, s, p);
    }
  }

  lemma ComplainsMore(s: string, p: nat, r: Step, rest: Output, o: Output)
    requires p < r.pos <= |s| && Within(s, p, r) && Blames(s, p, r) && Neat(s, r.pos, rest) && Complains(s, r.pos, rest)
    requires o.tokens == OutTokens(r) + rest.tokens && o.comments == r.comments + rest.comments
    requires o.errors == r.errors + rest.errors
    ensures Complains(s, p, o)
  {
    forall e | e in o.errors
      ensures ErrorIn(s, e, p)
    {
      assert e in rest.errors ==> ErrorIn(s, e, r.pos);
    }
    forall k, e | k in o.tokens && e in o.errors
      ensures Clear(k.from, k.to, e)
    {
      assert k in rest.tokens ==> TokenIn(k, r.pos, |s|);
      assert e in rest.errors ==> ErrorIn(s, e, r.pos);
    }
    forall c, e | c in o.comments && e in o.errors
      ensures Clear(c.from, c.to, e)
    {
      assert c in rest.comments ==> CommentIn(s, c, r.pos);
      assert e in rest.errors ==> ErrorIn(s, e, r.pos);
    }
    forall i, j | 0 <= i < j < |o.errors|
      ensures o.errors[i].from < o.errors[j].from
    {
      var n := |r.errors|;
      assert o.errors[j] == rest.errors[j - n] && ErrorIn(s, o.errors[j], r.pos);
      if i < n {
        assert o.errors[i] in r.errors;
      }
    }
  }

  /** Where the errors of a run are. */
  lemma {:induction false} ErrorSpans(t: Tables, s: string, p: nat, m: Mode)
    requires p <= |s|
    ensures Complains(s, p, Lex(t, s, p, m))
    decreases |s| - p
  {
    if p < |s| {
      StepWithin(t, s, p, InVersion(m));
      StepErrors(t, s, p, InVersion(m));
      var r, o := StepAt(t, s, p, InVersion(m)), Lex(t, s, p, m);
      if r.out.End? {
        ComplainsMore(s, p, r, Output([], [], []), o);
      } else {
        var m' := if r.out.Got? then After(m, r.out.value.token) else m;
        Spans(t, s, r.pos, m');
        ErrorSpans(t, s, r.pos, m');
        ComplainsMore(s, p, r, Lex(t, s, r.pos, m'), o);
      }
    }
  }

  ghost predicate Written(t: Tables, s: string, k: Spanned) {
    k.from <= k.to <= |s| && Writes(t, s[k.from..k.to], k.token)
  }

  /** Every token of a run is written by the characters of its span. */
  lemma {:induction false} Texts(t: Tables, s: string, p: nat, m: Mode)
    requires p <= |s|
    ensures forall k | k in Lex(t, s, p, m).tokens :: Written(t, s, k)
    decreases |s| - p
  {
    if p < |s| {
      StepWithin(t, s, p, InVersion(m));
      StepText(t, s, p, InVersion(m));
      var r := StepAt(t, s, p, InVersion(m));
      if r.out.Got? {
        Texts(t, s, r.pos, After(m, r.out.value.token));
        assert Written(t, s, r.out.value);
      } else if r.out.Nothing? {
        Texts(t, s, r.pos, m);
      }
    }
  }

  // ---------------------------------------------------------------------------
  // Nothing is skipped

  ghost predicate InToken(ks: seq<Spanned>, i: nat) {
    exists k | k in ks :: k.from <= i < k.to
  }

  ghost predicate InComment(cs: seq<Comment>, i: nat) {
    exists c | c in cs :: c.from <= i < c.to
  }

  /** A line comment ends before the character. */
  ghost predicate AfterLine(cs: seq<Comment>, i: nat) {
    exists c | c in cs :: c.to == i && (c.kind.LineComment? || c.kind.DocLine?)
  }

  /** The character is in a token or a comment, is white space, or is the newline that ends a line comment. */
  ghost predicate Accounted(t: Tables, s: string, ks: seq<Spanned>, cs: seq<Comment>, i: nat)
    requires i < |s|
  {
    InToken(ks, i) || InComment(cs, i) || t.isWhitespace(s[i]) || (IsNewline(s[i]) && AfterLine(cs, i))
  }

  ghost predicate AllAccounted(t: Tables, s: string, ks: seq<Spanned>, cs: seq<Comment>, p: nat, q: nat)
    requires q <= |s|
  {
    forall i | p <= i < q :: Accounted(t, s, ks, cs, i)
  }

  ghost function OutTokens(r: Step): seq<Spanned> {
    if r.out.Got? then [r.out.value] else []
  }

  /** A round without an error goes on, and accounts for all it moves over. */
  lemma StepAccounts(t: Tables, s: string, p: nat, semver: bool)
    requires p < |s| && StepAt(t, s, p, semver).errors == []
    ensures var r := StepAt(t, s, p, semver);
      !r.out.End? && p < r.pos <= |s| && AllAccounted(t, s, OutTokens(r), r.comments, p, r.pos)
  {
    StepWithin(t, s, p, semver);
    var r := StepAt(t, s, p, semver);
    if r.out.Got? {
      WholeToken(t, s, p, semver);
      TokenAccounts(t, s, r.out.value, p, r.pos);
    } else if Is(s, p, '/') && !Starts(t, '/') {
      CommentAccounts(t, s, p);
    } else {
      SpaceSkipped(t, s, p, semver);
    }
  }

  lemma TokenAccounts(t: Tables, s: string, k: Spanned, p: nat, q: nat)
    requires k.from == p && k.to == q <= |s|
    ensures AllAccounted(t, s, [k], [], p, q)
  {
    assert k in [k];
  }

  /** Without an error or a comment, what yields no token is white space. */
  lemma SpaceSkipped(t: Tables, s: string, p: nat, semver: bool)
    requires p < |s| && StepAt(t, s, p, semver).errors == [] && !StepAt(t, s, p, semver).out.Got?
    requires Starts(t, '/') || s[p] != '/'
    ensures var r := StepAt(t, s, p, semver);
      r.out.Nothing? && r.pos == p + 1 && r.comments == [] && t.isWhitespace(s[p])
  {
  }

  lemma WholeToken(t: Tables, s: string, p: nat, semver: bool)
    requires p < |s| && StepAt(t, s, p, semver).errors == [] && StepAt(t, s, p, semver).out.Got?
    ensures StepAt(t, s, p, semver).out.value.to == StepAt(t, s, p, semver).pos
  {
  }

  lemma CommentAccounts(t: Tables, s: string, p: nat)
    requires Is(s, p, '/') && SlashStep(t, s, p).errors == [] && SlashStep(t, s, p).out.Nothing?
    ensures var r := SlashStep(t, s, p); r.pos <= |s| && AllAccounted(t, s, [], r.comments, p, r.pos)
  {
    SlashWithin(t, s, p);
    var r := SlashStep(t, s, p);
    var c := r.comments[0];
    assert c in r.comments;
    if Is(s, p + 1, '/') && c.to < r.pos {
      RunIs(t, Line, s, Past(s, p + 2));
      assert AfterLine(r.comments, c.to);
    }
  }

  lemma AccountedMore(t: Tables, s: string, ks: seq<Spanned>, cs: seq<Comment>, ks': seq<Spanned>, cs': seq<Comment>,
                      p: nat, q: nat)
    requires q <= |s| && AllAccounted(t, s, ks, cs, p, q)
    requires (forall k | k in ks :: k in ks') && (forall c | c in cs :: c in cs')
    ensures AllAccounted(t, s, ks', cs', p, q)
  {
    forall i | p <= i < q
      ensures Accounted(t, s, ks', cs', i)
    {
      assert Accounted(t, s, ks, cs, i);
    }
  }

  /** In a run without errors every character is accounted for. */
  lemma {:induction false} NothingSkipped(t: Tables, s: string, p: nat, m: Mode)
    requires p <= |s| && Lex(t, s, p, m).errors == []
    ensures AllAccounted(t, s, Lex(t, s, p, m).tokens, Lex(t, s, p, m).comments, p, |s|)
    decreases |s| - p
  {
    if p < |s| {
      var r, o := StepAt(t, s, p, InVersion(m)), Lex(t, s, p, m);
      StepWithin(t, s, p, InVersion(m));
      StepAccounts(t, s, p, InVersion(m));
      var m' := if r.out.Got? then After(m, r.out.value.token) else m;
      var rest := Lex(t, s, r.pos, m');
      assert o.errors == r.errors + rest.errors;
      NothingSkipped(t, s, r.pos, m');
      AccountedMore(t, s, OutTokens(r), r.comments, o.tokens, o.comments, p, r.pos);
      AccountedMore(t, s, rest.tokens, rest.comments, o.tokens, o.comments, r.pos, |s|);
    }
  }

  /** An empty line comment takes its newline in. */
  lemma EmptyLineComment(t: Tables)
    requires !Starts(t, '/')
    ensures Lex(t, "//\n", 0, START) == Output([], [Comment(LineComment, 0, 3, "//\n")], [])
  {
    var s := "//\n";
    assert s[0..3] == s;
    assert StepAt(t, s, 0, false) == LineStep(t, s, 0);
    assert Lex(t, s, 3, START) == Output([], [], []);
  }
}

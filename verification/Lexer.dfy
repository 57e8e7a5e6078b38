/**
 The lexer itself: an object that moves through its input, collecting comments and errors as it goes.
 */
module Lexer {
  import opened Options
  import opened Tokens
  import opened Lexing

  /** What is recorded by now and what is still to be read, together. */
  ghost function Total(comments: seq<Comment>, errors: seq<LexicalError>, rest: Output): Output {
    Output(rest.tokens, comments + rest.comments, errors + rest.errors)
  }

  ghost function Ahead(k: Spanned, o: Output): Output {
    o.(tokens := [k] + o.tokens)
  }

  lemma TotalMoves(c: seq<Comment>, e: seq<LexicalError>, c': seq<Comment>, e': seq<LexicalError>, o: Output)
    ensures Total(c, e, Total(c', e', o)) == Total(c + c', e + e', o)
  {
    assert c + (c' + o.comments) == (c + c') + o.comments;
    assert e + (e' + o.errors) == (e + e') + o.errors;
  }

  lemma LexRound(t: Tables, s: string, p: nat, m: Mode, r: Step)
    requires p < |s| && r == StepAt(t, s, p, InVersion(m))
    ensures p < r.pos <= |s|
    ensures r.out.Nothing? ==> Lex(t, s, p, m) == Total(r.comments, r.errors, Lex(t, s, r.pos, m))
    ensures r.out.Got? ==>
      Lex(t, s, p, m) == Ahead(r.out.value, Total(r.comments, r.errors, Lex(t, s, r.pos, After(m, r.out.value.token))))
    ensures r.out.End? ==> Lex(t, s, p, m) == Output([], r.comments, r.errors)
  {
    StepWithin(t, s, p, InVersion(m));
  }

  /** What one round does to the total: nothing, but that its token is out. */
  lemma RoundTotal(t: Tables, s: string, p: nat, m: Mode, c: seq<Comment>, e: seq<LexicalError>, r: Step)
    requires p < |s| && r == StepAt(t, s, p, InVersion(m))
    ensures p < r.pos <= |s|
    ensures Total(c, e, Lex(t, s, p, m)) ==
      match r.out
      case Nothing => Total(c + r.comments, e + r.errors, Lex(t, s, r.pos, m))
      case Got(k) => Ahead(k, Total(c + r.comments, e + r.errors, Lex(t, s, r.pos, After(m, k.token))))
      case End => Output([], c + r.comments, e + r.errors)
  {
    LexRound(t, s, p, m, r);
    match r.out
    case Nothing => TotalMoves(c, e, r.comments, r.errors, Lex(t, s, r.pos, m));
    case Got(k) => TotalMoves(c, e, r.comments, r.errors, Lex(t, s, r.pos, After(m, k.token)));
    case End =>
  }

  predicate IsSemicolon(out: Out) {
    out.Got? && out.value.token == Symbol(";")
  }

  /** Only a semicolon is read as one. */
  lemma OnlySemicolon(t: Tables, s: string, p: nat, semver: bool)
    requires p < |s|
    ensures IsSemicolon(StepAt(t, s, p, semver).out) <==> s[p] == ';' && !Starts(t, s[p])
  {
    var r := StepAt(t, s, p, semver);
    if r.out.Got? && r.out.value.token.Symbol? {
      assert r.out.value.token.text[0] == s[p];
    }
  }

  class Lexer {
    const t: Tables
    const input: string
    var pos: nat
    var comments: seq<Comment>
    var errors: seq<LexicalError>
    var parseSemver: bool
    var older: Option<Token>
    var newer: Option<Token>

    ghost predicate Valid()
      reads this
    {
      pos <= |input|
    }

    ghost function Now(): Mode
      reads this
    {
      Mode(parseSemver, older, newer)
    }

    /** A step has been done: its token is out, its comments and errors are recorded, and the position is past it. */
    twostate predicate Did(r: Step, out: Out)
      reads this
    {
      && out == r.out && pos == r.pos
      && comments == old(comments) + r.comments && errors == old(errors) + r.errors
    }

    constructor (t: Tables, input: string)
      ensures Valid() && this.t == t && this.input == input && pos == 0
      ensures comments == [] && errors == [] && Now() == START
    {
      this.t, this.input := t, input;
      pos, comments, errors := 0, [], [];
      parseSemver, older, newer := false, None, None;
    }

    /** Moves over characters of one kind. */
    method Skip(k: Kind)
      requires Valid()
      modifies this`pos
      ensures Valid() && pos == Run(t, k, input, old(pos))
    {
      while pos < |input| && InKind(t, k, input[pos])
        invariant Valid() && Run(t, k, input, pos) == Run(t, k, input, old(pos))
        decreases |input| - pos
      {
        pos := pos + 1;
      }
    }

    /** Moves past the closing quote, which is at end, or to the end of the input. */
    method SkipString(quote: char) returns (end: nat)
      requires Valid()
      modifies this`pos
      ensures Valid() && end == StringEnd(input, old(pos), quote, false) && pos == Past(input, end)
    {
      var lastWasEscape := false;
      while pos < |input|
        invariant Valid() && StringEnd(input, pos, quote, lastWasEscape) == StringEnd(input, old(pos), quote, false)
        decreases |input| - pos
      {
        var ch := input[pos];
        end := pos;
        pos := pos + 1;
        if !lastWasEscape {
          if ch == quote {
            return;
          }
          lastWasEscape := ch == '\\';
        } else {
          lastWasEscape := false;
        }
      }
      end := |input|;
    }

    /** Moves past the slash that closes a comment, which is at end, or to the end of the input. */
    method SkipBlock() returns (end: nat)
      requires Valid()
      modifies this`pos
      ensures Valid() && end == BlockEnd(input, old(pos), false) && pos == Past(input, end)
    {
      var seenStar := false;
      while pos < |input|
        invariant Valid() && (seenStar ==> pos > 0 && input[pos - 1] == '*')
        invariant BlockEnd(input, pos, seenStar) == BlockEnd(input, old(pos), false)
        decreases |input| - pos
      {
        var ch := input[pos];
        end := pos;
        pos := pos + 1;
        if seenStar && ch == '/' {
          return;
        }
        seenStar := ch == '*';
      }
      end := |input|;
    }

    /** A word that a quote may follow, or any other word. */
    method ReadWord(start: nat) returns (out: Out)
      requires Valid() && start < |input| && pos == start + 1
      modifies this`pos, this`errors
      ensures Valid() && Did(WordStep(t, input, start), out)
    {
      Skip(Word);
      var end := pos;
      var id := input[start..end];
      if end < |input| && IsQuote(input[end]) {
        var quote := input[end];
        if id == "unicode" {
          pos := pos + 1;
          var z := SkipString(quote);
          if z < |input| {
            return Got(Spanned(start, StringLiteral(true, input[end + 1..z]), z + 1));
          }
          errors := errors + [EndOfFileInString(start, |input|)];
        } else if id == "hex" {
          out := ReadHex(start, end);
          return;
        } else if id == "address" {
          out := ReadAddress(start, end);
          return;
        }
      }
      out := Got(Spanned(start, WordToken(t, id), end));
    }

    method ReadAddress(start: nat, end: nat) returns (out: Out)
      requires Valid() && start < end == pos < |input|
      modifies this`pos, this`errors
      ensures Valid() && Did(AddressStep(t, input, start, end), out)
    {
      var quote := input[end];
      pos := pos + 1;
      Skip(Until(quote));
      if pos < |input| {
        pos := pos + 1;
        return Got(Spanned(start, AddressLiteral(input[start..pos]), pos));
      }
      errors := errors + [EndOfFileInString(start, |input|)];
      out := End;
    }

    method ReadHex(start: nat, end: nat) returns (out: Out)
      requires Valid() && start < end == pos < |input|
      modifies this`pos, this`errors
      ensures Valid() && Did(HexStep(t, input, start, end), out)
    {
      var quote := input[end];
      pos := pos + 1;
      Skip(HexDigits);
      if pos < |input| && input[pos] == quote {
        pos := pos + 1;
        return Got(Spanned(start, HexLiteral(input[start..pos]), pos));
      }
      if pos < |input| {
        errors := errors + [InvalidCharacterInHexLiteral(pos, pos + 1, input[pos])];
        pos := pos + 1;
        Skip(Until(quote));
        pos := Past(input, pos);
        return Nothing;
      }
      errors := errors + [EndOfFileInString(start, |input|)];
      out := End;
    }

    method ReadString(start: nat) returns (out: Out)
      requires Valid() && start < |input| && pos == start + 1
      modifies this`pos, this`errors
      ensures Valid() && Did(StringStep(input, start), out)
    {
      var z := SkipString(input[start]);
      if z < |input| {
        return Got(Spanned(start, StringLiteral(false, input[start + 1..z]), z + 1));
      }
      errors := errors + [EndOfFileInString(start, |input|)];
      out := Nothing;
    }

    method ReadSlash(start: nat) returns (out: Out)
      requires Valid() && start < |input| && pos == start + 1
      modifies this`pos, this`comments, this`errors
      ensures Valid() && Did(SlashStep(t, input, start), out)
    {
      if Is(input, pos, '=') {
        pos := pos + 1;
        return Got(Spanned(start, Symbol("/="), pos));
      }
      if Is(input, pos, '/') {
        pos := pos + 1;
        ReadLine(start);
        return Nothing;
      }
      if Is(input, pos, '*') {
        pos := pos + 1;
        var doc := Is(input, pos, '*');
        var z := SkipBlock();
        if z == |input| {
          errors := errors + [EndOfFileInComment(start, |input|)];
          return End;
        }
        var kind := if doc && z - 1 > start + 2 then DocBlock else BlockComment;
        comments := comments + [Comment(kind, start, z + 1, input[start..z + 1])];
        return Nothing;
      }
      out := Got(Spanned(start, Symbol("/"), pos));
    }

    method ReadLine(start: nat)
      requires Valid() && start + 2 == pos
      modifies this`pos, this`comments
      ensures Valid() && Did(LineStep(t, input, start), Nothing)
    {
      var doc, newline := false, false;
      if pos < |input| {
        var ch := input[pos];
        pos := pos + 1;
        if ch == '/' {
          doc := !Is(input, pos, '/');
        } else {
          newline := IsNewline(ch);
        }
      }
      var last := start + 3;
      if !newline {
        Skip(Line);
        last := pos;
        pos := Past(input, pos);
      }
      comments := comments + [Comment(if doc then DocLine else LineComment, start, last, input[start..last])];
    }

    /** The exponent, if there is one, of a number of which all else has been read. */
    method FinishNumber(start: nat, i: nat, fraction: bool, f: nat) returns (out: Out)
      requires Valid() && start <= i <= |input| && f <= pos
      modifies this`pos, this`errors
      ensures Valid() && Did(NumberEnd(t, input, start, i, fraction, f, old(pos)), out)
    {
      var e, exponent := pos, "";
      if Is(input, pos, 'e') || Is(input, pos, 'E') {
        pos := pos + 1;
        var expStart := pos;
        Skip(Dashes);
        var digits := pos;
        Skip(Digits);
        if digits == pos {
          errors := errors + [MissingExponent(start, |input|)];
          return Nothing;
        }
        exponent := input[expStart..pos];
      }
      var integer := input[start..i];
      var k := if fraction then RationalNumber(integer, input[f..e], exponent) else Number(integer, exponent);
      out := Got(Spanned(start, k, pos));
    }

    method ReadNumber(start: nat) returns (out: Out)
      requires Valid() && start < |input| && pos == start + 1
      modifies this`pos, this`errors
      ensures Valid() && Did(NumberStep(t, input, start, parseSemver), out)
    {
      if input[start] == '0' && Is(input, pos, 'x') {
        out := ReadHexNumber(start);
      } else {
        Skip(Digits);
        out := ReadDecimal(start);
      }
    }

    /** The rest of a number after its first digits. */
    method ReadDecimal(start: nat) returns (out: Out)
      requires Valid() && start < pos
      modifies this`pos, this`errors
      ensures Valid() && Did(DecimalStep(t, input, start, old(pos), parseSemver), out)
    {
      var i := pos;
      if parseSemver {
        return Got(Spanned(start, Number(input[start..i], ""), i));
      }
      if HasFraction(input, i) {
        pos := pos + 1;
        Skip(Digits);
        out := FinishNumber(start, i, true, i + 1);
      } else {
        out := FinishNumber(start, i, false, i);
      }
    }

    method ReadHexNumber(start: nat) returns (out: Out)
      requires Valid() && start + 2 <= |input| && pos == start + 1
      modifies this`pos, this`errors
      ensures Valid() && Did(HexNumberStep(t, input, start), out)
    {
      pos := pos + 1;
      if pos == |input| {
        errors := errors + [EndofFileInHex(start, |input|)];
        return End;
      }
      pos := pos + 1;
      if !IsHexDigit(input[pos - 1]) {
        errors := errors + [MissingNumber(start, start + 1)];
        return Nothing;
      }
      Skip(HexDigits);
      out := Got(Spanned(start, HexNumber(input[start..pos]), pos));
    }

    /** A number that starts with its point. */
    method ReadPoint(start: nat) returns (out: Out)
      requires Valid() && start < |input| && pos == start + 1
      modifies this`pos, this`errors
      ensures Valid() && Did(PointStep(t, input, start), out)
    {
      Skip(Digits);
      out := FinishNumber(start, start, true, start + 1);
      if out.Nothing? {
        out := End;
      }
    }

    method ReadAnnotation(start: nat) returns (out: Out)
      requires Valid() && start < |input| && pos == start + 1
      modifies this`pos, this`errors
      ensures Valid() && Did(AnnotationStep(t, input, start), out)
    {
      Skip(Word);
      if pos == start + 1 {
        errors := errors + [UnrecognisedToken(start, start + 1, input[start..pos])];
        return Nothing;
      }
      out := Got(Spanned(start, Annotation(input[start + 1..pos]), pos));
    }

    method ReadUnknown(start: nat)
      requires Valid() && start < |input| && pos == start + 1
      modifies this`pos, this`errors
      ensures Valid() && Did(UnknownStep(t, input, start), Nothing)
    {
      Skip(Dark);
      errors := errors + [UnrecognisedToken(start, pos, input[start..pos])];
      pos := Past(input, pos);
    }

    /** One round of the loop. */
    method Round() returns (out: Out)
      requires Valid() && pos < |input|
      modifies this`pos, this`comments, this`errors, this`parseSemver
      ensures Valid() && Did(StepAt(t, input, old(pos), old(parseSemver)), out)
      ensures parseSemver == (old(parseSemver) && !IsSemicolon(out))
    {
      OnlySemicolon(t, input, pos, parseSemver);
      var start, ch := pos, input[pos];
      pos := pos + 1;
      if Starts(t, ch) {
        out := ReadWord(start);
      } else if IsQuote(ch) {
        out := ReadString(start);
      } else if ch == '/' {
        out := ReadSlash(start);
      } else if IsDigit(ch) {
        out := ReadNumber(start);
      } else if ch == '@' {
        out := ReadAnnotation(start);
      } else if ch == '.' && !parseSemver && pos < |input| && IsDigit(input[pos]) {
        out := ReadPoint(start);
      } else if Operator(input, start) != "" {
        var text := Operator(input, start);
        if ch == ';' {
          parseSemver := false;
        }
        pos := start + |text|;
        out := Got(Spanned(start, Symbol(text), pos));
      } else if t.isWhitespace(ch) {
        out := Nothing;
      } else {
        ReadUnknown(start);
        out := Nothing;
      }
    }

    /** Comments and errors by now, and all that is still to be read in mode m. */
    ghost function Whole(m: Mode): Output
      requires Valid()
      reads this
    {
      Total(comments, errors, Lex(t, input, pos, m))
    }

    /** One round, seen from the whole output. */
    method Turn(ghost m: Mode) returns (out: Out)
      requires Valid() && pos < |input| && InVersion(m) == parseSemver
      modifies this`pos, this`comments, this`errors, this`parseSemver
      ensures Valid() && old(pos) < pos && parseSemver == (old(parseSemver) && !IsSemicolon(out))
      ensures old(Whole(m)) ==
        match out
        case Nothing => Whole(m)
        case Got(k) => Ahead(k, Whole(After(m, k.token)))
        case End => Output([], comments, errors)
    {
      RoundTotal(t, input, pos, m, comments, errors, StepAt(t, input, pos, parseSemver));
      out := Round();
    }

    /** Rounds until there is a token or the end. */
    method NextToken(ghost m: Mode) returns (out: Option<Spanned>)
      requires Valid() && InVersion(m) == parseSemver
      modifies this`pos, this`comments, this`errors, this`parseSemver
      ensures Valid() && parseSemver == (old(parseSemver) && (out.Some? ==> out.value.token != Symbol(";")))
      ensures old(Whole(m)) ==
        match out
        case Some(k) => Ahead(k, Whole(After(m, k.token)))
        case None => Output([], comments, errors)
      ensures old(pos) <= pos && (out.Some? ==> old(pos) < pos)
    {
      while pos < |input|
        invariant Valid() && old(pos) <= pos && parseSemver == old(parseSemver) && Whole(m) == old(Whole(m))
        decreases |input| - pos
      {
        var r := Turn(m);
        match r
        case Got(k) => return Some(k);
        case End => return None;
        case Nothing =>
      }
      out := None;
    }

    /** The next token, read in version mode after pragma and a name and until a semicolon. */
    method Next() returns (out: Option<Spanned>)
      requires Valid()
      modifies this`pos, this`comments, this`errors, this`parseSemver, this`older, this`newer
      ensures Valid() && old(pos) <= pos
      ensures (out.Some? ==> old(pos) < pos && Now() == After(old(Now()), out.value.token))
      ensures old(Whole(Now())) ==
        match out
        case Some(k) => Ahead(k, Whole(Now()))
        case None => Output([], comments, errors)
    {
      ghost var m := Now();
      if older == Some(Keyword("pragma")) && newer.Some? && newer.value.Identifier? {
        parseSemver := true;
      }
      out := NextToken(m);
      older, newer := newer, if out.Some? then Some(out.value.token) else None;
    }
  }

  ghost function Joined(ks: seq<Spanned>, o: Output): Output {
    o.(tokens := ks + o.tokens)
  }

  /** All tokens of an input, with its comments and errors. */
  method Tokenize(t: Tables, input: string) returns (o: Output)
    ensures o == Lex(t, input, 0, START)
  {
    var lexer := new Lexer(t, input);
    var ks := [];
    while true
      invariant fresh(lexer) && lexer.Valid() && lexer.t == t && lexer.input == input
      invariant Joined(ks, lexer.Whole(lexer.Now())) == Lex(t, input, 0, START)
      decreases |input| - lexer.pos
    {
      var k := lexer.Next();
      if k.None? {
        break;
      }
      ks := ks + [k.value];
    }
    o := Output(ks, lexer.comments, lexer.errors);
  }
}

/**
 Maximal munch: every round of the lexer reads the longest token there is, or a comment, or white space, or
 complains of something that is malformed; and what is malformed is complained of.
 */
module Munching {
  import opened Tokens
  import opened Lexing
  import opened Grammar

  // ---------------------------------------------------------------------------
  // Runs of characters

  lemma DigitsRun(t: Tables, s: string, p: nat)
    requires p <= |s|
    ensures var e := Run(t, Digits, s, p); DigitsAt(s, p, e) && (e < |s| ==> !DigitOrBar(s[e]))
  {
    RunIs(t, Digits, s, p);
  }

  lemma HexRun(t: Tables, s: string, p: nat)
    requires p <= |s|
    ensures var e := Run(t, HexDigits, s, p); HexAt(s, p, e) && (e < |s| ==> !HexOrBar(s[e]))
  {
    RunIs(t, HexDigits, s, p);
  }

  lemma NameRun(t: Tables, s: string, p: nat)
    requires p <= |s|
    ensures var e := Run(t, Word, s, p); NamePart(t, s, p, e) && NoName(t, s, e)
  {
    RunIs(t, Word, s, p);
  }

  lemma DarkRun(t: Tables, s: string, p: nat)
    requires p <= |s|
    ensures DarkTo(t, s, p, Run(t, Dark, s, p))
  {
    RunIs(t, Dark, s, p);
  }

  lemma SignsRun(t: Tables, s: string, j: nat)
    requires j < |s| && (s[j] == 'e' || s[j] == 'E')
    ensures var d := Run(t, Dashes, s, j + 1); SignsAt(s, j, d) && (d < |s| ==> s[d] != '-')
  {
    RunIs(t, Dashes, s, j + 1);
  }

  /** The end found for a string is the one closing quote that is not escaped. */
  lemma {:induction false} StringEndMeaning(s: string, p: nat, q: char, escaped: bool)
    requires p <= |s|
    ensures var z := StringEnd(s, p, q, escaped);
      && (z < |s| ==> Unquoted(s, p, z, q, escaped))
      && forall z' | p <= z' < |s| && s[z'] == q && Unquoted(s, p, z', q, escaped) :: z' == z
    decreases |s| - p
  {
    if p < |s| {
      StringEndMeaning(s, p + 1, q, !escaped && s[p] == '\\');
    }
  }

  // ---------------------------------------------------------------------------
  // Numbers

  /** No part of a number can be longer: i and j are as far as digits go. */
  ghost predicate Full(s: string, p: nat, i: nat, j: nat) {
    && BodyAt(s, p, i, j)
    && (p < i && i < |s| ==> !DigitOrBar(s[i]))
    && (j < |s| ==> !DigitOrBar(s[j]))
    && (i == j ==> !HasPoint(s, i))
  }

  ghost predicate HasPoint(s: string, i: nat) {
    i + 1 < |s| && s[i] == '.' && '0' <= s[i + 1] <= '9'
  }

  lemma DigitsStop(s: string, a: nat, e: nat, j: nat)
    requires DigitsAt(s, a, e) && a <= j && (j < |s| ==> !DigitOrBar(s[j]))
    ensures e <= j
  {
  }

  lemma SignsStop(s: string, j: nat, d: nat, d': nat)
    requires SignsAt(s, j, d) && SignsAt(s, j, d') && (d < |s| ==> s[d] != '-')
    ensures d' <= d
  {
  }

  /** Another body at p ends no later, and goes on to an exponent only if it is the same. */
  lemma BodyShorter(s: string, p: nat, i: nat, j: nat, i': nat, j': nat)
    requires Full(s, p, i, j) && BodyAt(s, p, i', j')
    ensures j' <= j
    ensures j' < |s| && (s[j'] == 'e' || s[j'] == 'E') ==> i' == i && j' == j
  {
    if p < i {
      assert '0' <= s[p] <= '9';
      assert i' <= i;
      if i' < i {
        assert DigitOrBar(s[i']);
      } else if i' < j' {
        assert i < j;
        DigitsStop(s, i + 1, j', j);
        if j' < j {
          assert DigitOrBar(s[j']);
        }
      }
    } else {
      assert s[p] == '.';
      DigitsStop(s, p + 1, j', j);
      if j' < j {
        assert DigitOrBar(s[j']);
      }
    }
  }

  /** Of the signs behind an exponent's letter, only all of them have a digit or nothing more behind. */
  lemma SignsUnique(s: string, j: nat, d: nat, d': nat)
    requires SignsAt(s, j, d) && (d < |s| ==> s[d] != '-') && SignsAt(s, j, d') && (d' < |s| ==> s[d'] != '-')
    ensures d == d'
  {
    SignsStop(s, j, d, d');
    SignsStop(s, j, d', d);
  }

  /** What the end of a number comes to, once its body is known. */
  lemma EndMeaning(t: Tables, s: string, p: nat, i: nat, j: nat, fraction: bool, f: nat)
    requires Full(s, p, i, j) && (if fraction then f == i + 1 <= j && i < j else f == i == j)
    ensures var r := NumberEnd(t, s, p, i, fraction, f, j);
      if r.errors == [] then
        && r.out.Got? && r.comments == [] && r.out.value.from == p && r.out.value.to == r.pos
        && exists d :: NumberAt(s, p, i, j, d, r.pos, false, r.out.value.token)
      else
        && r.errors == [MissingExponent(p, |s|)] && r.out.Nothing? && r.comments == []
        && SignsAt(s, j, r.pos) && SignsEnd(s, r.pos)
  {
    var r := NumberEnd(t, s, p, i, fraction, f, j);
    ExponentMeaning(t, s, j);
    if r.errors == [] {
      var d := if r.pos == j then j else Run(t, Dashes, s, j + 1);
      assert NumberAt(s, p, i, j, d, r.pos, false, r.out.value.token);
    }
  }

  lemma ExponentMeaning(t: Tables, s: string, j: nat)
    requires j <= |s|
    ensures match ExpAt(t, s, j)
            case NoExp => true
            case Exp(from, to) => from == j + 1 && ExponentAt(s, j, Run(t, Dashes, s, j + 1), to)
            case Missing(d) => SignsAt(s, j, d) && SignsEnd(s, d)
  {
    if Is(s, j, 'e') || Is(s, j, 'E') {
      SignsRun(t, s, j);
      DigitsRun(t, s, Run(t, Dashes, s, j + 1));
    }
  }

  /** No number at p is longer than what NumberEnd reads, and there is none if an exponent is missing. */
  lemma EndLongest(t: Tables, s: string, p: nat, i: nat, j: nat, fraction: bool, f: nat, i': nat, j': nat, d': nat,
                   e': nat, k': Token)
    requires Full(s, p, i, j) && (if fraction then f == i + 1 <= j && i < j else f == i == j)
    requires NumberAt(s, p, i', j', d', e', false, k') && NumberEnd(t, s, p, i, fraction, f, j).errors == []
    ensures e' <= NumberEnd(t, s, p, i, fraction, f, j).pos
  {
    BodyShorter(s, p, i, j, i', j');
    if j' < e' {
      assert ExponentAt(s, j', d', e');
      SignsRun(t, s, j);
      var d := Run(t, Dashes, s, j + 1);
      DigitsRun(t, s, d);
      assert DigitOrBar(s[d']);
      SignsUnique(s, j, d, d');
      DigitsStop(s, d, e', Run(t, Digits, s, d));
    }
  }

  // ---------------------------------------------------------------------------
  // One round

  ghost predicate ReadsToken(t: Tables, s: string, p: nat, semver: bool, r: Step) {
    && r.out.Got? && r.out.value.from == p && r.out.value.to == r.pos && r.comments == [] && r.errors == []
    && Longest(t, s, p, r.pos, semver, r.out.value.token)
  }

  /** A comment, and what is behind it: the newline of a line comment that does not take it in itself. */
  ghost predicate ReadsComment(s: string, p: nat, r: Step) {
    && r.out.Nothing? && |r.comments| == 1 && r.errors == [] && CommentAt(s, p)
    && var c := r.comments[0];
       && IsComment(s, c) && c.from == p
       && r.pos == if c.to < |s| && IsNewline(s[c.to]) && s[p + 1] == '/' && s[c.to - 1] != '\n' && s[c.to - 1] != '\r'
                   then c.to + 1 else c.to
  }

  ghost predicate SkipsSpace(t: Tables, s: string, p: nat, semver: bool, r: Step) {
    && p < |s| && r == Step(Nothing, p + 1, [], []) && t.isWhitespace(s[p]) && !CommentAt(s, p)
    && forall e, k :: !TokenAt(t, s, p, e, semver, k)
  }

  /** An error, where to go on after it, and the one word that is a token all the same. */
  ghost predicate Complained(t: Tables, s: string, p: nat, semver: bool, r: Step) {
    && |r.errors| == 1 && r.comments == [] && p < |s|
    && var e := r.errors[0];
       && Malformed(t, s, p, semver, e) && Resumes(s, p, e, r.pos)
       && if e.EndOfFileInString? && s[p] == 'u' then
            && r.out.Got? && r.out.value.from == p && r.out.value.to == p + 7
            && Longest(t, s, p, p + 7, semver, r.out.value.token)
          else r.out == if EndsTokens(s, p, e) then End else Nothing
  }

  /** What a round does, without the lexer's own words for it. */
  ghost predicate RoundIs(t: Tables, s: string, p: nat, semver: bool, r: Step) {
    || ReadsToken(t, s, p, semver, r)
    || ReadsComment(s, p, r)
    || SkipsSpace(t, s, p, semver, r)
    || Complained(t, s, p, semver, r)
  }

  /** What the first character of a token says about it. */
  ghost predicate FirstFits(t: Tables, s: string, p: nat, k: Token) {
    p < |s| &&
    match k
    case Identifier(_) => Starts(t, s[p])
    case Keyword(_) => Starts(t, s[p])
    case StringLiteral(unicode, _) => if unicode then s[p] == 'u' else IsQuote(s[p])
    case HexLiteral(_) => s[p] == 'h'
    case AddressLiteral(_) => s[p] == 'a'
    case HexNumber(_) => s[p] == '0' && Is(s, p + 1, 'x')
    case Number(_, _) => '0' <= s[p] <= '9'
    case RationalNumber(_, _, _) => '0' <= s[p] <= '9' || s[p] == '.'
    case Symbol(_) => IsOne(s[p]) || s[p] == '/'
    case Annotation(_) => s[p] == '@'
  }

  lemma OpensFirst(s: string, p: nat, b: nat, word: string)
    requires Opens(s, p, b, word) && word != ""
    ensures s[p] == word[0] && b == p + |word|
  {
    assert s[p..b][0] == s[p];
  }

  lemma TokenFirst(t: Tables, s: string, p: nat, e: nat, semver: bool, k: Token)
    requires TokenAt(t, s, p, e, semver, k)
    ensures FirstFits(t, s, p, k)
  {
    match k
    case StringLiteral(unicode, _) =>
      if unicode {
        OpensFirst(s, p, p + 7, "unicode");
      }
    case HexLiteral(_) => OpensFirst(s, p, p + 3, "hex");
    case AddressLiteral(_) => OpensFirst(s, p, p + 7, "address");
    case Symbol(text) => assert text[0] == s[p];
    case _ =>
  }

  // Numbers

  /** The first character is a digit, and a number that is not hexadecimal starts there. */
  ghost predicate DecimalStart(s: string, p: nat) {
    p < |s| && '0' <= s[p] <= '9' && !(s[p] == '0' && Is(s, p + 1, 'x'))
  }

  /** No number in decimal digits at p ends behind e. */
  ghost predicate NumbersEnd(s: string, p: nat, e: nat, semver: bool) {
    forall i, j, d, e': nat, k | NumberAt(s, p, i, j, d, e', semver, k) :: e' <= e
  }

  lemma DecimalOnly(t: Tables, s: string, p: nat, e: nat, semver: bool)
    requires Sound(t) && DecimalStart(s, p) && NumbersEnd(s, p, e, semver)
    ensures NoLonger(t, s, p, e, semver)
  {
    forall e': nat, k' | TokenAt(t, s, p, e', semver, k')
      ensures e' <= e
    {
      TokenFirst(t, s, p, e', semver, k');
    }
  }

  lemma EndsThere(t: Tables, s: string, p: nat, i: nat, j: nat, fraction: bool, f: nat)
    requires Full(s, p, i, j) && (if fraction then f == i + 1 <= j && i < j else f == i == j)
    requires NumberEnd(t, s, p, i, fraction, f, j).errors == []
    ensures NumbersEnd(s, p, NumberEnd(t, s, p, i, fraction, f, j).pos, false)
  {
    forall i', j', d', e': nat, k' | NumberAt(s, p, i', j', d', e', false, k')
      ensures e' <= NumberEnd(t, s, p, i, fraction, f, j).pos
    {
      EndLongest(t, s, p, i, j, fraction, f, i', j', d', e', k');
    }
  }

  /** A number that nothing longer starts with is read. */
  lemma NumberRead(t: Tables, s: string, p: nat, i: nat, j: nat, d: nat, semver: bool, r: Step)
    requires r.out.Got? && r.comments == [] && r.errors == [] && r.out.value.from == p && r.out.value.to == r.pos
    requires NumberAt(s, p, i, j, d, r.pos, semver, r.out.value.token) && s[p] != '/'
    requires NoLonger(t, s, p, r.pos, semver)
    ensures RoundIs(t, s, p, semver, r)
  {
    assert TokenAt(t, s, p, r.pos, semver, r.out.value.token);
  }

  lemma VersionRound(t: Tables, s: string, p: nat, i: nat, r: Step)
    requires Sound(t) && DecimalStart(s, p) && i == Run(t, Digits, s, p + 1) && r == Yield(p, Number(s[p..i], ""), i)
    ensures RoundIs(t, s, p, true, r)
  {
    DigitsRun(t, s, p + 1);
    assert NumberAt(s, p, i, i, i, i, true, Number(s[p..i], ""));
    forall i', j', d', e': nat, k' | NumberAt(s, p, i', j', d', e', true, k')
      ensures e' <= i
    {
      DigitsStop(s, p, i', i);
    }
    DecimalOnly(t, s, p, i, true);
    NumberRead(t, s, p, i, i, i, true, r);
  }

  /** A number whose exponent is missing is complained of. */
  lemma ExponentMissed(t: Tables, s: string, p: nat, i: nat, j: nat, r: Step)
    requires r.errors == [MissingExponent(p, |s|)] && r.comments == [] && p < |s|
    requires BodyAt(s, p, i, j) && SignsAt(s, j, r.pos) && SignsEnd(s, r.pos)
    requires r.out == if s[p] == '.' then End else Nothing
    ensures RoundIs(t, s, p, false, r)
  {
    assert Malformed(t, s, p, false, MissingExponent(p, |s|));
    assert Resumes(s, p, MissingExponent(p, |s|), r.pos);
  }

  lemma DecimalRound(t: Tables, s: string, p: nat, i: nat, j: nat, fraction: bool, f: nat, r: Step)
    requires Sound(t) && DecimalStart(s, p) && p < i && Full(s, p, i, j)
    requires if fraction then f == i + 1 <= j && i < j else f == i == j
    requires r == NumberEnd(t, s, p, i, fraction, f, j)
    ensures RoundIs(t, s, p, false, r)
  {
    EndMeaning(t, s, p, i, j, fraction, f);
    if r.errors == [] {
      EndsThere(t, s, p, i, j, fraction, f);
      DecimalOnly(t, s, p, r.pos, false);
      var d :| NumberAt(s, p, i, j, d, r.pos, false, r.out.value.token);
      NumberRead(t, s, p, i, j, d, false, r);
    } else {
      ExponentMissed(t, s, p, i, j, r);
    }
  }

  lemma DigitRound(t: Tables, s: string, p: nat, semver: bool, r: Step)
    requires Sound(t) && DecimalStart(s, p) && r == NumberStep(t, s, p, semver)
    ensures RoundIs(t, s, p, semver, r)
  {
    var i := Run(t, Digits, s, p + 1);
    DigitsRun(t, s, p + 1);
    assert IntegerAt(s, p, i);
    if semver {
      VersionRound(t, s, p, i, r);
    } else if HasFraction(s, i) {
      var j := Run(t, Digits, s, i + 1);
      FractionRun(t, s, i, j);
      DecimalRound(t, s, p, i, j, true, i + 1, r);
    } else {
      DecimalRound(t, s, p, i, i, false, i, r);
    }
  }

  lemma FractionRun(t: Tables, s: string, i: nat, j: nat)
    requires HasFraction(s, i) && j == Run(t, Digits, s, i + 1)
    ensures FractionAt(s, i, j) && (j < |s| ==> !DigitOrBar(s[j]))
  {
    DigitsRun(t, s, i + 1);
    DigitsStop(s, i + 1, i + 2, j);
  }

  lemma HexNumberRound(t: Tables, s: string, p: nat, semver: bool)
    requires Sound(t) && p + 2 <= |s| && s[p] == '0' && s[p + 1] == 'x'
    ensures RoundIs(t, s, p, semver, HexNumberStep(t, s, p))
  {
    if p + 2 < |s| && IsHexDigit(s[p + 2]) {
      var e := Run(t, HexDigits, s, p + 3);
      HexRun(t, s, p + 3);
      forall e': nat, k' | TokenAt(t, s, p, e', semver, k')
        ensures e' <= e
      {
        TokenFirst(t, s, p, e', semver, k');
        if k'.HexNumber? {
          HexStop(s, p + 2, e', e);
        } else {
          ZeroX(t, s, p, e', semver, k');
        }
      }
    }
  }

  lemma HexStop(s: string, a: nat, e: nat, j: nat)
    requires HexAt(s, a, e) && a <= j && (j < |s| ==> !HexOrBar(s[j]))
    ensures e <= j
  {
  }

  /** In front of an x, 0 by itself is the longest decimal number. */
  lemma ZeroX(t: Tables, s: string, p: nat, e: nat, semver: bool, k: Token)
    requires TokenAt(t, s, p, e, semver, k) && (k.Number? || k.RationalNumber?)
    requires s[p] == '0' && Is(s, p + 1, 'x')
    ensures e == p + 1
  {
    var i, j, d :| NumberAt(s, p, i, j, d, e, semver, k);
    DigitsStop(s, p, i, p + 1);
  }

  lemma PointOnly(t: Tables, s: string, p: nat, e: nat)
    requires Sound(t) && HasFraction(s, p) && p < e && NumbersEnd(s, p, e, false)
    ensures NoLonger(t, s, p, e, false)
  {
    forall e': nat, k' | TokenAt(t, s, p, e', false, k')
      ensures e' <= e
    {
      TokenFirst(t, s, p, e', false, k');
      if k'.Symbol? {
        PointAlone(t, s, p, e', false, k');
      }
    }
  }

  lemma PointRound(t: Tables, s: string, p: nat)
    requires Sound(t) && HasFraction(s, p)
    ensures RoundIs(t, s, p, false, PointStep(t, s, p))
  {
    var j := Run(t, Digits, s, p + 1);
    FractionRun(t, s, p, j);
    assert BodyAt(s, p, p, j);
    EndMeaning(t, s, p, p, j, true, p + 1);
    var r := NumberEnd(t, s, p, p, true, p + 1, j);
    if r.errors == [] {
      EndsThere(t, s, p, p, j, true, p + 1);
      PointOnly(t, s, p, r.pos);
      var d :| NumberAt(s, p, p, j, d, r.pos, false, r.out.value.token);
      NumberRead(t, s, p, p, j, d, false, r);
    } else {
      ExponentMissed(t, s, p, p, j, r.(out := End));
    }
  }

  /** A symbol that starts with a point is the point. */
  lemma PointAlone(t: Tables, s: string, p: nat, e: nat, semver: bool, k: Token)
    requires TokenAt(t, s, p, e, semver, k) && k.Symbol? && s[p] == '.'
    ensures e == p + 1
  {
    assert k.text[0] == '.';
  }

  // Words and the literals that they open

  /** A token that nothing longer starts with is read. */
  lemma TokenRead(t: Tables, s: string, p: nat, e: nat, semver: bool, k: Token, r: Step)
    requires TokenAt(t, s, p, e, semver, k) && NoLonger(t, s, p, e, semver) && s[p] != '/' && r == Yield(p, k, e)
    ensures RoundIs(t, s, p, semver, r)
  {
  }

  lemma NameStop(t: Tables, s: string, a: nat, e: nat, j: nat)
    requires NamePart(t, s, a, e) && a <= j && NoName(t, s, j)
    ensures e <= j
  {
  }

  /** A word of letters in front of a quote is as long as the run of its characters. */
  lemma OpenedWord(t: Tables, s: string, p: nat, b: nat, word: string)
    requires Sound(t) && Opens(s, p, b, word) && word != ""
    requires forall i | 0 <= i < |word| :: IsLetter(word[i])
    ensures Run(t, Word, s, p + 1) == b == p + |word|
  {
    OpensFirst(s, p, b, word);
    forall i | p + 1 <= i < b
      ensures InKind(t, Word, s[i])
    {
      assert s[i] == s[p..b][i - p];
    }
    RunUnique(t, Word, s, p + 1, b);
  }

  /** What a token is that starts as a word does: the word, or a literal that the whole word opens. */
  lemma WordTokens(t: Tables, s: string, p: nat, e: nat, semver: bool, k: Token, w: nat)
    requires Sound(t) && p < |s| && Starts(t, s[p]) && TokenAt(t, s, p, e, semver, k) && w == Run(t, Word, s, p + 1)
    ensures k.Identifier? || k.Keyword? ==> e <= w
    ensures k.StringLiteral? ==> k.unicode && w == p + 7 && s[p] == 'u'
    ensures k.HexLiteral? ==> w == p + 3 && s[p] == 'h'
    ensures k.AddressLiteral? ==> w == p + 7 && s[p] == 'a'
    ensures k.Identifier? || k.Keyword? || k.StringLiteral? || k.HexLiteral? || k.AddressLiteral?
  {
    TokenFirst(t, s, p, e, semver, k);
    NameRun(t, s, p + 1);
    if k.Identifier? || k.Keyword? {
      NameStop(t, s, p + 1, e, w);
    } else if k.StringLiteral? && k.unicode {
      OpenedWord(t, s, p, p + 7, "unicode");
    } else if k.HexLiteral? {
      OpenedWord(t, s, p, p + 3, "hex");
    } else if k.AddressLiteral? {
      OpenedWord(t, s, p, p + 7, "address");
    }
  }

  /** A word by itself is a token. */
  lemma PlainWord(t: Tables, s: string, p: nat, w: nat, semver: bool)
    requires p < |s| && Starts(t, s[p]) && w == Run(t, Word, s, p + 1)
    ensures TokenAt(t, s, p, w, semver, WordToken(t, s[p..w]))
  {
    NameRun(t, s, p + 1);
    assert WordAt(t, s, p, w);
  }

  /** A closed string at b ends where StringEnd says. */
  lemma StringStops(s: string, b: nat, e: nat, z: nat)
    requires b < |s| && z == StringEnd(s, b + 1, s[b], false)
    requires Encloses(s, b, e) && Unquoted(s, b + 1, e - 1, s[b], false)
    ensures e == z + 1
  {
    StringEndMeaning(s, b + 1, s[b], false);
  }

  /** A string whose end is not found is not closed. */
  lemma StringUnclosed(s: string, b: nat)
    requires b < |s| && StringEnd(s, b + 1, s[b], false) == |s|
    ensures Unclosed(s, b)
  {
    StringEndMeaning(s, b + 1, s[b], false);
  }

  lemma UnicodeEnd(t: Tables, s: string, p: nat, z: nat, end: nat, semver: bool)
    requires Sound(t) && p + 7 < |s| && Starts(t, s[p]) && s[p] == 'u' && Run(t, Word, s, p + 1) == p + 7
    requires z == StringEnd(s, p + 8, s[p + 7], false) && end == if z < |s| then z + 1 else p + 7
    ensures NoLonger(t, s, p, end, semver)
  {
    forall e': nat, k' | TokenAt(t, s, p, e', semver, k')
      ensures e' <= end
    {
      WordTokens(t, s, p, e', semver, k', p + 7);
      if k'.StringLiteral? {
        StringStops(s, p + 7, e', z);
      }
    }
  }

  lemma UnicodeClosed(t: Tables, s: string, p: nat, z: nat, semver: bool, r: Step)
    requires Sound(t) && Opens(s, p, p + 7, "unicode") && Starts(t, s[p]) && Run(t, Word, s, p + 1) == p + 7
    requires z == StringEnd(s, p + 8, s[p + 7], false) < |s|
    requires r == Yield(p, StringLiteral(true, s[p + 8..z]), z + 1)
    ensures RoundIs(t, s, p, semver, r)
  {
    OpensFirst(s, p, p + 7, "unicode");
    UnicodeEnd(t, s, p, z, z + 1, semver);
    StringEndMeaning(s, p + 8, s[p + 7], false);
    assert TokenAt(t, s, p, z + 1, semver, StringLiteral(true, s[p + 8..z]));
    TokenRead(t, s, p, z + 1, semver, StringLiteral(true, s[p + 8..z]), r);
  }

  lemma UnicodeOpen(t: Tables, s: string, p: nat, semver: bool, r: Step)
    requires Sound(t) && Opens(s, p, p + 7, "unicode") && Starts(t, s[p]) && Run(t, Word, s, p + 1) == p + 7
    requires StringEnd(s, p + 8, s[p + 7], false) == |s|
    requires r == Step(Got(Spanned(p, WordToken(t, s[p..p + 7]), p + 7)), |s|, [], [EndOfFileInString(p, |s|)])
    ensures RoundIs(t, s, p, semver, r)
  {
    OpensFirst(s, p, p + 7, "unicode");
    UnicodeEnd(t, s, p, |s|, p + 7, semver);
    StringUnclosed(s, p + 7);
    PlainWord(t, s, p, p + 7, semver);
    assert Malformed(t, s, p, semver, EndOfFileInString(p, |s|));
  }

  lemma UnicodeRound(t: Tables, s: string, p: nat, semver: bool, r: Step)
    requires Sound(t) && Opens(s, p, p + 7, "unicode") && Starts(t, s[p]) && Run(t, Word, s, p + 1) == p + 7
    requires r == UnicodeStep(t, s, p, p + 7)
    ensures RoundIs(t, s, p, semver, r)
  {
    var z := StringEnd(s, p + 8, s[p + 7], false);
    if z < |s| {
      UnicodeClosed(t, s, p, z, semver, r);
    } else {
      UnicodeOpen(t, s, p, semver, r);
    }
  }

  lemma HexEnd(t: Tables, s: string, p: nat, h: nat, semver: bool)
    requires Sound(t) && p + 3 < h < |s| && Starts(t, s[p]) && s[p] == 'h' && Run(t, Word, s, p + 1) == p + 3
    requires !HexOrBar(s[h])
    ensures NoLonger(t, s, p, h + 1, semver)
  {
    forall e': nat, k' | TokenAt(t, s, p, e', semver, k')
      ensures e' <= h + 1
    {
      WordTokens(t, s, p, e', semver, k', p + 3);
      if k'.HexLiteral? {
        HexStop(s, p + 4, e' - 1, h);
      }
    }
  }

  lemma HexClosed(t: Tables, s: string, p: nat, h: nat, semver: bool, r: Step)
    requires Sound(t) && Opens(s, p, p + 3, "hex") && Starts(t, s[p]) && Run(t, Word, s, p + 1) == p + 3
    requires h == Run(t, HexDigits, s, p + 4) && Is(s, h, s[p + 3])
    requires r == Yield(p, HexLiteral(s[p..h + 1]), h + 1)
    ensures RoundIs(t, s, p, semver, r)
  {
    HexRun(t, s, p + 4);
    OpensFirst(s, p, p + 3, "hex");
    HexEnd(t, s, p, h, semver);
    assert TokenAt(t, s, p, h + 1, semver, HexLiteral(s[p..h + 1]));
    TokenRead(t, s, p, h + 1, semver, HexLiteral(s[p..h + 1]), r);
  }

  lemma HexBad(t: Tables, s: string, p: nat, h: nat, semver: bool, z: nat, r: Step)
    requires Opens(s, p, p + 3, "hex") && h == Run(t, HexDigits, s, p + 4) < |s| && s[h] != s[p + 3]
    requires z == Run(t, Until(s[p + 3]), s, h + 1)
    requires r == Complain(Past(s, z), InvalidCharacterInHexLiteral(h, h + 1, s[h]))
    ensures RoundIs(t, s, p, semver, r)
  {
    HexRun(t, s, p + 4);
    RunIs(t, Until(s[p + 3]), s, h + 1);
    assert Malformed(t, s, p, semver, InvalidCharacterInHexLiteral(h, h + 1, s[h]));
  }

  lemma HexOpen(t: Tables, s: string, p: nat, semver: bool, r: Step)
    requires Opens(s, p, p + 3, "hex") && Run(t, HexDigits, s, p + 4) == |s|
    requires r == Stop(|s|, EndOfFileInString(p, |s|))
    ensures RoundIs(t, s, p, semver, r)
  {
    HexRun(t, s, p + 4);
    OpensFirst(s, p, p + 3, "hex");
    assert Malformed(t, s, p, semver, EndOfFileInString(p, |s|));
  }

  lemma HexRound(t: Tables, s: string, p: nat, semver: bool, r: Step)
    requires Sound(t) && Opens(s, p, p + 3, "hex") && Starts(t, s[p]) && Run(t, Word, s, p + 1) == p + 3
    requires r == HexStep(t, s, p, p + 3)
    ensures RoundIs(t, s, p, semver, r)
  {
    var h := Run(t, HexDigits, s, p + 4);
    if Is(s, h, s[p + 3]) {
      HexClosed(t, s, p, h, semver, r);
    } else if h < |s| {
      HexBad(t, s, p, h, semver, Run(t, Until(s[p + 3]), s, h + 1), r);
    } else {
      HexOpen(t, s, p, semver, r);
    }
  }

  lemma AddressEnd(t: Tables, s: string, p: nat, z: nat, semver: bool)
    requires Sound(t) && p + 7 < z < |s| && Starts(t, s[p]) && s[p] == 'a' && Run(t, Word, s, p + 1) == p + 7
    requires s[z] == s[p + 7]
    ensures NoLonger(t, s, p, z + 1, semver)
  {
    forall e': nat, k' | TokenAt(t, s, p, e', semver, k')
      ensures e' <= z + 1
    {
      WordTokens(t, s, p, e', semver, k', p + 7);
    }
  }

  lemma AddressClosed(t: Tables, s: string, p: nat, z: nat, semver: bool, r: Step)
    requires Sound(t) && Opens(s, p, p + 7, "address") && Starts(t, s[p]) && Run(t, Word, s, p + 1) == p + 7
    requires z == Run(t, Until(s[p + 7]), s, p + 8) < |s| && r == Yield(p, AddressLiteral(s[p..z + 1]), z + 1)
    ensures RoundIs(t, s, p, semver, r)
  {
    RunIs(t, Until(s[p + 7]), s, p + 8);
    OpensFirst(s, p, p + 7, "address");
    AddressEnd(t, s, p, z, semver);
    assert TokenAt(t, s, p, z + 1, semver, AddressLiteral(s[p..z + 1]));
    TokenRead(t, s, p, z + 1, semver, AddressLiteral(s[p..z + 1]), r);
  }

  lemma AddressOpen(t: Tables, s: string, p: nat, semver: bool, r: Step)
    requires Opens(s, p, p + 7, "address") && Run(t, Until(s[p + 7]), s, p + 8) == |s|
    requires r == Stop(|s|, EndOfFileInString(p, |s|))
    ensures RoundIs(t, s, p, semver, r)
  {
    RunIs(t, Until(s[p + 7]), s, p + 8);
    OpensFirst(s, p, p + 7, "address");
    assert Malformed(t, s, p, semver, EndOfFileInString(p, |s|));
  }

  lemma AddressRound(t: Tables, s: string, p: nat, semver: bool, r: Step)
    requires Sound(t) && Opens(s, p, p + 7, "address") && Starts(t, s[p]) && Run(t, Word, s, p + 1) == p + 7
    requires r == AddressStep(t, s, p, p + 7)
    ensures RoundIs(t, s, p, semver, r)
  {
    var z := Run(t, Until(s[p + 7]), s, p + 8);
    if z < |s| {
      AddressClosed(t, s, p, z, semver, r);
    } else {
      AddressOpen(t, s, p, semver, r);
    }
  }

  /** A word that opens no literal. */
  lemma WordAlone(t: Tables, s: string, p: nat, w: nat, semver: bool)
    requires Sound(t) && p < |s| && Starts(t, s[p]) && w == Run(t, Word, s, p + 1)
    requires !Opens(s, p, w, "unicode") && !Opens(s, p, w, "hex") && !Opens(s, p, w, "address")
    ensures ReadsToken(t, s, p, semver, Yield(p, WordToken(t, s[p..w]), w))
  {
    PlainWord(t, s, p, w, semver);
    forall e': nat, k' | TokenAt(t, s, p, e', semver, k')
      ensures e' <= w
    {
      WordTokens(t, s, p, e', semver, k', w);
    }
  }

  lemma WordRound(t: Tables, s: string, p: nat, semver: bool)
    requires Sound(t) && p < |s| && Starts(t, s[p])
    ensures RoundIs(t, s, p, semver, WordStep(t, s, p))
  {
    var w, r := Run(t, Word, s, p + 1), WordStep(t, s, p);
    if Opens(s, p, w, "unicode") {
      OpenedWord(t, s, p, w, "unicode");
      UnicodeRound(t, s, p, semver, r);
    } else if Opens(s, p, w, "hex") {
      OpenedWord(t, s, p, w, "hex");
      HexRound(t, s, p, semver, r);
    } else if Opens(s, p, w, "address") {
      OpenedWord(t, s, p, w, "address");
      AddressRound(t, s, p, semver, r);
    } else {
      WordAlone(t, s, p, w, semver);
    }
  }

  // Everything else

  lemma StringOnly(t: Tables, s: string, p: nat, z: nat, semver: bool)
    requires Sound(t) && p < |s| && IsQuote(s[p]) && z == StringEnd(s, p + 1, s[p], false)
    ensures NoLonger(t, s, p, z + 1, semver)
  {
    forall e': nat, k' | TokenAt(t, s, p, e', semver, k')
      ensures e' <= z + 1
    {
      QuoteTokens(t, s, p, e', semver, k');
      StringStops(s, p, e', z);
    }
  }

  lemma StringClosed(t: Tables, s: string, p: nat, z: nat, semver: bool, k: Token, r: Step)
    requires Sound(t) && p < |s| && IsQuote(s[p]) && z == StringEnd(s, p + 1, s[p], false) < |s|
    requires k == StringLiteral(false, s[p + 1..z]) && r == Yield(p, k, z + 1)
    ensures RoundIs(t, s, p, semver, r)
  {
    StringToken(t, s, p, z, semver, k);
    StringOnly(t, s, p, z, semver);
    TokenRead(t, s, p, z + 1, semver, k, r);
  }

  lemma StringToken(t: Tables, s: string, p: nat, z: nat, semver: bool, k: Token)
    requires p < |s| && IsQuote(s[p]) && z == StringEnd(s, p + 1, s[p], false) < |s|
    requires k == StringLiteral(false, s[p + 1..z])
    ensures TokenAt(t, s, p, z + 1, semver, k)
  {
    StringEndMeaning(s, p + 1, s[p], false);
    assert s[p..p] == "";
  }

  lemma StringOpen(t: Tables, s: string, p: nat, semver: bool, r: Step)
    requires Sound(t) && p < |s| && IsQuote(s[p]) && StringEnd(s, p + 1, s[p], false) == |s|
    requires r == Complain(|s|, EndOfFileInString(p, |s|))
    ensures RoundIs(t, s, p, semver, r)
  {
    StringUnclosed(s, p);
    assert s[p..p] == "";
    assert Malformed(t, s, p, semver, EndOfFileInString(p, |s|));
  }

  lemma StringRound(t: Tables, s: string, p: nat, semver: bool, r: Step)
    requires Sound(t) && p < |s| && IsQuote(s[p]) && r == StringStep(s, p)
    ensures RoundIs(t, s, p, semver, r)
  {
    var z := StringEnd(s, p + 1, s[p], false);
    if z < |s| {
      StringClosed(t, s, p, z, semver, StringLiteral(false, s[p + 1..z]), r);
    } else {
      StringOpen(t, s, p, semver, r);
    }
  }

  lemma QuoteTokens(t: Tables, s: string, p: nat, e: nat, semver: bool, k: Token)
    requires Sound(t) && p < |s| && IsQuote(s[p]) && TokenAt(t, s, p, e, semver, k)
    ensures k.StringLiteral? && !k.unicode
  {
    TokenFirst(t, s, p, e, semver, k);
  }

  lemma SlashTokens(t: Tables, s: string, p: nat, e: nat, semver: bool, k: Token)
    requires Sound(t) && Is(s, p, '/') && TokenAt(t, s, p, e, semver, k)
    ensures k.Symbol? && (e == p + 1 || (e == p + 2 && s[p + 1] == '='))
  {
    TokenFirst(t, s, p, e, semver, k);
    assert k.text[0] == '/';
    if |k.text| > 1 {
      assert k.text[1] == s[p + 1];
    }
  }

  lemma SlashRound(t: Tables, s: string, p: nat, semver: bool)
    requires Sound(t) && Is(s, p, '/')
    ensures RoundIs(t, s, p, semver, SlashStep(t, s, p))
  {
    if Is(s, p + 1, '/') {
      LineRound(t, s, p);
    } else if Is(s, p + 1, '*') {
      BlockRound(t, s, p, semver);
    } else {
      var e := if Is(s, p + 1, '=') then p + 2 else p + 1;
      assert s[p..e] == if Is(s, p + 1, '=') then "/=" else "/";
      assert TokenAt(t, s, p, e, semver, Symbol(s[p..e]));
      forall e': nat, k' | TokenAt(t, s, p, e', semver, k')
        ensures e' <= e
      {
        SlashTokens(t, s, p, e', semver, k');
      }
    }
  }

  lemma LineRound(t: Tables, s: string, p: nat)
    requires p + 1 < |s| && s[p] == '/' && s[p + 1] == '/'
    ensures ReadsComment(s, p, LineStep(t, s, p))
  {
    assert s[p..p + 2] == "//";
    LineWithin(t, s, p);
    RunIs(t, Line, s, Past(s, p + 2));
    var c := LineStep(t, s, p).comments[0];
    assert c in LineStep(t, s, p).comments;
  }

  lemma BlockRound(t: Tables, s: string, p: nat, semver: bool)
    requires p + 1 < |s| && s[p] == '/' && s[p + 1] == '*'
    ensures RoundIs(t, s, p, semver, BlockStep(s, p))
  {
    assert s[p..p + 2] == "/*";
    BlockWithin(s, p);
    var r := BlockStep(s, p);
    if r.errors == [] {
      assert r.comments[0] in r.comments;
    } else {
      forall i | p + 2 <= i < |s| - 1
        ensures !(s[i] == '*' && s[i + 1] == '/')
      {
        BlockEndFirst(s, p + 2, false, i);
      }
    }
  }

  lemma AnnotationRound(t: Tables, s: string, p: nat, semver: bool)
    requires Sound(t) && Is(s, p, '@')
    ensures RoundIs(t, s, p, semver, AnnotationStep(t, s, p))
  {
    var e := Run(t, Word, s, p + 1);
    NameRun(t, s, p + 1);
    if e > p + 1 {
      assert TokenAt(t, s, p, e, semver, Annotation(s[p + 1..e]));
      forall e': nat, k' | TokenAt(t, s, p, e', semver, k')
        ensures e' <= e
      {
        TokenFirst(t, s, p, e', semver, k');
        NameStop(t, s, p + 1, e', e);
      }
    }
  }

  /** The first character starts nothing but a symbol, if that. */
  ghost predicate SymbolStart(t: Tables, s: string, p: nat, semver: bool) {
    && p < |s| && !Starts(t, s[p]) && !IsQuote(s[p]) && s[p] != '/' && s[p] != '@' && !('0' <= s[p] <= '9')
    && (semver || !HasFraction(s, p))
  }

  lemma SymbolTokens(t: Tables, s: string, p: nat, e: nat, semver: bool, k: Token)
    requires Sound(t) && SymbolStart(t, s, p, semver) && TokenAt(t, s, p, e, semver, k)
    ensures k.Symbol? && k.text == s[p..e] && IsSymbol(s[p..e])
  {
    TokenFirst(t, s, p, e, semver, k);
    if k.RationalNumber? {
      NoFraction(s, p, e, semver, k);
    } else if k.Symbol? {
      assert k.text[0] == s[p];
    }
  }

  lemma NoFraction(s: string, p: nat, e: nat, semver: bool, k: Token)
    requires exists i, j, d :: NumberAt(s, p, i, j, d, e, semver, k)
    ensures p < |s| && ('0' <= s[p] <= '9' || (!semver && HasFraction(s, p)))
  {
    var i, j, d :| NumberAt(s, p, i, j, d, e, semver, k);
  }

  lemma SymbolRound(t: Tables, s: string, p: nat, semver: bool)
    requires Sound(t) && SymbolStart(t, s, p, semver) && Operator(s, p) != ""
    ensures ReadsToken(t, s, p, semver, Yield(p, Symbol(Operator(s, p)), p + |Operator(s, p)|))
  {
    LongestOperator(s, p);
    var e := p + |Operator(s, p)|;
    assert TokenAt(t, s, p, e, semver, Symbol(s[p..e]));
    forall e': nat, k' | TokenAt(t, s, p, e', semver, k')
      ensures e' <= e
    {
      SymbolTokens(t, s, p, e', semver, k');
    }
  }

  lemma NothingRound(t: Tables, s: string, p: nat, semver: bool)
    requires Sound(t) && SymbolStart(t, s, p, semver) && Operator(s, p) == ""
    ensures RoundIs(t, s, p, semver,
      if t.isWhitespace(s[p]) then Step(Nothing, p + 1, [], []) else UnknownStep(t, s, p))
  {
    LongestOperator(s, p);
    assert s[p..p + 1] == [s[p]];
    DarkRun(t, s, p + 1);
    forall e: nat, k
      ensures !TokenAt(t, s, p, e, semver, k)
    {
      if TokenAt(t, s, p, e, semver, k) {
        SymbolTokens(t, s, p, e, semver, k);
      }
    }
  }

  /** Every round of the lexer, on any input, is one of the four. */
  lemma RoundMeaning(t: Tables, s: string, p: nat, semver: bool)
    requires Sound(t) && p < |s|
    ensures RoundIs(t, s, p, semver, StepAt(t, s, p, semver))
  {
    var c := s[p];
    if Starts(t, c) {
      WordRound(t, s, p, semver);
    } else if IsQuote(c) {
      StringRound(t, s, p, semver, StringStep(s, p));
    } else if c == '/' {
      SlashRound(t, s, p, semver);
    } else if IsDigit(c) {
      if DecimalStart(s, p) {
        DigitRound(t, s, p, semver, NumberStep(t, s, p, semver));
      } else {
        HexNumberRound(t, s, p, semver);
      }
    } else if c == '@' {
      AnnotationRound(t, s, p, semver);
    } else if !semver && HasFraction(s, p) {
      PointRound(t, s, p);
    } else if Operator(s, p) != "" {
      SymbolRound(t, s, p, semver);
    } else {
      NothingRound(t, s, p, semver);
    }
  }

  // ---------------------------------------------------------------------------
  // What is malformed is complained of

  lemma QuoteComplaint(t: Tables, s: string, p: nat, semver: bool)
    requires Sound(t) && p < |s| && IsQuote(s[p]) && Unclosed(s, p)
    ensures StepAt(t, s, p, semver).errors == [EndOfFileInString(p, |s|)]
  {
    StringEndMeaning(s, p + 1, s[p], false);
  }

  lemma UnicodeComplaint(t: Tables, s: string, p: nat, semver: bool)
    requires Sound(t) && Opens(s, p, p + 7, "unicode") && Unclosed(s, p + 7)
    ensures StepAt(t, s, p, semver).errors == [EndOfFileInString(p, |s|)]
  {
    OpenedWord(t, s, p, p + 7, "unicode");
    OpensFirst(s, p, p + 7, "unicode");
    StringEndMeaning(s, p + 8, s[p + 7], false);
  }

  lemma StringComplaint(t: Tables, s: string, p: nat, semver: bool, e: LexicalError)
    requires Sound(t) && e.EndOfFileInString? && Malformed(t, s, p, semver, e)
    ensures StepAt(t, s, p, semver).errors == [e]
  {
    if Opens(s, p, p, "") && Unclosed(s, p) {
      QuoteComplaint(t, s, p, semver);
    } else if Opens(s, p, p + 7, "unicode") && Unclosed(s, p + 7) {
      UnicodeComplaint(t, s, p, semver);
    } else if Opens(s, p, p + 3, "hex") && HexAt(s, p + 4, |s|) {
      OpenedWord(t, s, p, p + 3, "hex");
      OpensFirst(s, p, p + 3, "hex");
      RunUnique(t, HexDigits, s, p + 4, |s|);
    } else {
      OpenedWord(t, s, p, p + 7, "address");
      OpensFirst(s, p, p + 7, "address");
      RunUnique(t, Until(s[p + 7]), s, p + 8, |s|);
    }
  }

  lemma HexComplaint(t: Tables, s: string, p: nat, semver: bool, e: LexicalError)
    requires Sound(t) && e.InvalidCharacterInHexLiteral? && Malformed(t, s, p, semver, e)
    ensures StepAt(t, s, p, semver).errors == [e]
  {
    OpenedWord(t, s, p, p + 3, "hex");
    OpensFirst(s, p, p + 3, "hex");
    RunUnique(t, HexDigits, s, p + 4, e.from);
  }

  /** The body in front of an exponent's letter is all there is of it. */
  lemma BodyFull(s: string, p: nat, i: nat, j: nat)
    requires BodyAt(s, p, i, j) && j < |s| && (s[j] == 'e' || s[j] == 'E')
    ensures Full(s, p, i, j)
  {
  }

  lemma ExponentComplaint(t: Tables, s: string, p: nat, i: nat, j: nat, d: nat)
    requires Sound(t) && BodyAt(s, p, i, j) && SignsAt(s, j, d) && SignsEnd(s, d)
    ensures StepAt(t, s, p, false).errors == [MissingExponent(p, |s|)]
  {
    BodyFull(s, p, i, j);
    SignsMissing(t, s, j, d);
    if i < j {
      RunUnique(t, Digits, s, i + 1, j);
    }
    if p < i {
      RunUnique(t, Digits, s, p + 1, i);
      DigitComplaint(t, s, p, i, j, d);
    }
  }

  lemma DigitComplaint(t: Tables, s: string, p: nat, i: nat, j: nat, d: nat)
    requires Sound(t) && Full(s, p, i, j) && p < i == Run(t, Digits, s, p + 1) && ExpAt(t, s, j) == Missing(d)
    requires j < |s| && (s[j] == 'e' || s[j] == 'E') && (i < j ==> Run(t, Digits, s, i + 1) == j)
    ensures StepAt(t, s, p, false).errors == [MissingExponent(p, |s|)]
  {
    assert StepAt(t, s, p, false) == NumberStep(t, s, p, false);
  }

  lemma SignsMissing(t: Tables, s: string, j: nat, d: nat)
    requires SignsAt(s, j, d) && SignsEnd(s, d)
    ensures ExpAt(t, s, j) == Missing(d)
  {
    RunUnique(t, Dashes, s, j + 1, d);
    RunUnique(t, Digits, s, d, d);
  }

  lemma CommentComplaint(t: Tables, s: string, p: nat, semver: bool, e: LexicalError)
    requires Sound(t) && e.EndOfFileInComment? && Malformed(t, s, p, semver, e)
    ensures StepAt(t, s, p, semver).errors == [e]
  {
  }

  lemma UnknownComplaint(t: Tables, s: string, p: nat, semver: bool, e: LexicalError)
    requires Sound(t) && e.UnrecognisedToken? && Malformed(t, s, p, semver, e)
    ensures StepAt(t, s, p, semver).errors == [e]
  {
    if s[p] == '@' {
      RunUnique(t, Word, s, p + 1, p + 1);
    } else {
      RunUnique(t, Dark, s, p + 1, e.to);
      LongestOperator(s, p);
      assert s[p..p + 1] == [s[p]];
    }
  }

  /** Whatever is malformed at the start of a round is the error of that round. */
  lemma MalformedFound(t: Tables, s: string, p: nat, semver: bool, e: LexicalError)
    requires Sound(t) && Malformed(t, s, p, semver, e)
    ensures StepAt(t, s, p, semver).errors == [e]
  {
    match e
    case EndOfFileInString(_, _) => StringComplaint(t, s, p, semver, e);
    case InvalidCharacterInHexLiteral(_, _, _) => HexComplaint(t, s, p, semver, e);
    case MissingExponent(_, _) =>
      var i, j, d :| BodyAt(s, p, i, j) && SignsAt(s, j, d) && SignsEnd(s, d);
      ExponentComplaint(t, s, p, i, j, d);
    case EndOfFileInComment(_, _) => CommentComplaint(t, s, p, semver, e);
    case UnrecognisedToken(_, _, _) => UnknownComplaint(t, s, p, semver, e);
    case _ =>
  }

  // ---------------------------------------------------------------------------
  // Whole runs

  /** The mode after the tokens, from mode m on. */
  ghost function ModeFrom(m: Mode, ks: seq<Spanned>): Mode
    decreases |ks|
  {
    if ks == [] then m else ModeFrom(After(m, ks[0].token), ks[1..])
  }

  lemma {:induction false} ModeFromStep(m: Mode, ks: seq<Spanned>, k: Spanned)
    ensures ModeFrom(m, ks + [k]) == After(ModeFrom(m, ks), k.token)
    decreases |ks|
  {
    if ks == [] {
      assert ([] + [k])[1..] == [];
    } else {
      assert (ks + [k])[1..] == ks[1..] + [k];
      ModeFromStep(After(m, ks[0].token), ks[1..], k);
    }
  }

  ghost function TokensIn(ks: seq<Spanned>): (r: seq<Token>)
    ensures |r| == |ks|
  {
    if ks == [] then [] else TokensIn(ks[..|ks| - 1]) + [ks[|ks| - 1].token]
  }

  /** From the start, it is the mode that VersionMode is about. */
  lemma {:induction false} ModeFromStart(ks: seq<Spanned>)
    ensures ModeFrom(START, ks) == ModeAfter(TokensIn(ks))
  {
    if ks != [] {
      var n := |ks| - 1;
      ModeFromStart(ks[..n]);
      ModeFromStep(START, ks[..n], ks[n]);
      assert ks == ks[..n] + [ks[n]];
      assert TokensIn(ks)[..n] == TokensIn(ks[..n]);
    }
  }

  /** Token i of the run is the longest one at its place, in the mode that the tokens before it leave. */
  ghost predicate LongestIn(t: Tables, s: string, m: Mode, ks: seq<Spanned>, i: nat)
    requires i < |ks|
  {
    Longest(t, s, ks[i].from, ks[i].to, InVersion(ModeFrom(m, ks[..i])), ks[i].token)
  }

  lemma LongestLater(t: Tables, s: string, m: Mode, k: Spanned, rest: seq<Spanned>, ks: seq<Spanned>, i: nat)
    requires i < |rest| && ks == [k] + rest && LongestIn(t, s, After(m, k.token), rest, i)
    ensures LongestIn(t, s, m, ks, i + 1)
  {
    assert ks[..i + 1][1..] == rest[..i];
  }

  /** Every token of every run is the longest that its place has. */
  lemma {:induction false} TokensLongest(t: Tables, s: string, p: nat, m: Mode)
    requires Sound(t) && p <= |s|
    ensures forall i | 0 <= i < |Lex(t, s, p, m).tokens| :: LongestIn(t, s, m, Lex(t, s, p, m).tokens, i)
    decreases |s| - p
  {
    if p < |s| {
      StepWithin(t, s, p, InVersion(m));
      RoundMeaning(t, s, p, InVersion(m));
      var r, o := StepAt(t, s, p, InVersion(m)), Lex(t, s, p, m);
      if r.out.Got? {
        var k := r.out.value;
        var rest := Lex(t, s, r.pos, After(m, k.token));
        TokensLongest(t, s, r.pos, After(m, k.token));
        assert o.tokens[..0] == [];
        forall i | 0 <= i < |o.tokens|
          ensures LongestIn(t, s, m, o.tokens, i)
        {
          if i > 0 {
            LongestLater(t, s, m, k, rest.tokens, o.tokens, i - 1);
          }
        }
      } else if r.out.Nothing? {
        TokensLongest(t, s, r.pos, m);
      }
    }
  }

  /** The error is about something malformed. */
  ghost predicate Founded(t: Tables, s: string, e: LexicalError) {
    exists p, semver :: Malformed(t, s, p, semver, e)
  }

  lemma RoundFounded(t: Tables, s: string, p: nat, semver: bool, r: Step)
    requires RoundIs(t, s, p, semver, r)
    ensures forall e | e in r.errors :: Founded(t, s, e)
  {
    forall e | e in r.errors
      ensures Founded(t, s, e)
    {
      assert r.errors[0] == e && Malformed(t, s, p, semver, e);
    }
  }

  /** Every error of every run is founded. */
  lemma {:induction false} ErrorsFounded(t: Tables, s: string, p: nat, m: Mode)
    requires Sound(t) && p <= |s|
    ensures forall e | e in Lex(t, s, p, m).errors :: Founded(t, s, e)
    decreases |s| - p
  {
    if p < |s| {
      StepWithin(t, s, p, InVersion(m));
      RoundMeaning(t, s, p, InVersion(m));
      var r := StepAt(t, s, p, InVersion(m));
      RoundFounded(t, s, p, InVersion(m), r);
      if !r.out.End? {
        ErrorsFounded(t, s, r.pos, if r.out.Got? then After(m, r.out.value.token) else m);
      }
    }
  }

  // ---------------------------------------------------------------------------
  // Instances

  /** A word by itself is looked up. */
  lemma WordRead(t: Tables, w: string)
    requires Sound(t) && IsWord(t, w)
    ensures Lex(t, w, 0, START) ==
      Output([Spanned(0, if w in t.keywords then Keyword(t.keywords[w]) else Identifier(w), |w|)], [], [])
  {
    RunUnique(t, Word, w, 1, |w|);
    assert w[0..|w|] == w;
    assert StepAt(t, w, 0, false) == WordStep(t, w, 0);
  }

  /** A fraction without the exponent it should have ends the tokens, though input is left. */
  lemma PointEnds(t: Tables)
    requires Sound(t)
    ensures Lex(t, ".5e;", 0, START) == Output([], [], [MissingExponent(0, 4)])
  {
    var s := ".5e;";
    ExponentComplaint(t, s, 0, 0, 2, 3);
    assert BodyAt(s, 0, 0, 2);
    assert StepAt(t, s, 0, false) == PointStep(t, s, 0);
    RoundMeaning(t, s, 0, false);
  }

  /** A round of the lexer that yields token k from p to e. */
  ghost predicate Yields(t: Tables, s: string, p: nat, semver: bool, k: Token, e: nat) {
    p < e <= |s| && StepAt(t, s, p, semver) == Yield(p, k, e)
  }

  lemma YieldsMore(t: Tables, s: string, p: nat, m: Mode, k: Token, e: nat)
    requires Yields(t, s, p, InVersion(m), k, e)
    ensures Lex(t, s, p, m).tokens == [Spanned(p, k, e)] + Lex(t, s, e, After(m, k)).tokens
  {
  }

  lemma SpaceMore(t: Tables, s: string, p: nat, m: Mode)
    requires Sound(t) && Is(s, p, ' ')
    ensures Lex(t, s, p, m).tokens == Lex(t, s, p + 1, m).tokens
  {
    SpaceStep(t, s, p, InVersion(m));
  }

  lemma SpaceStep(t: Tables, s: string, p: nat, semver: bool)
    requires Sound(t) && Is(s, p, ' ')
    ensures StepAt(t, s, p, semver) == Step(Nothing, p + 1, [], [])
  {
  }

  const VERSION := "pragma a 0.8;"

  lemma VersionWords(t: Tables)
    requires Sound(t)
    ensures Yields(t, VERSION, 0, false, WordToken(t, "pragma"), 6)
    ensures Yields(t, VERSION, 7, false, WordToken(t, "a"), 8)
  {
    RunUnique(t, Word, VERSION, 1, 6);
    RunUnique(t, Word, VERSION, 8, 8);
    assert VERSION[0..6] == "pragma" && VERSION[7..8] == "a";
  }

  lemma VersionNumbers(t: Tables)
    requires Sound(t)
    ensures Yields(t, VERSION, 9, true, Number("0", ""), 10) && Yields(t, VERSION, 10, true, Symbol("."), 11)
    ensures Yields(t, VERSION, 11, true, Number("8", ""), 12) && Yields(t, VERSION, 12, true, Symbol(";"), 13)
  {
    RunUnique(t, Digits, VERSION, 10, 10);
    RunUnique(t, Digits, VERSION, 12, 12);
    assert VERSION[9..10] == "0" && VERSION[11..12] == "8";
  }

  /** From 9 on, in version mode. */
  lemma VersionRest(t: Tables, m: Mode)
    requires Sound(t) && InVersion(m)
    ensures Lex(t, VERSION, 9, m).tokens ==
      [Spanned(9, Number("0", ""), 10), Spanned(10, Symbol("."), 11), Spanned(11, Number("8", ""), 12),
       Spanned(12, Symbol(";"), 13)]
  {
    var m1 := After(m, Number("0", ""));
    var m2 := After(m1, Symbol("."));
    var m3 := After(m2, Number("8", ""));
    VersionNumbers(t);
    YieldsMore(t, VERSION, 9, m, Number("0", ""), 10);
    YieldsMore(t, VERSION, 10, m1, Symbol("."), 11);
    YieldsMore(t, VERSION, 11, m2, Number("8", ""), 12);
    YieldsMore(t, VERSION, 12, m3, Symbol(";"), 13);
  }

  /** From 6 on: the name and the version, once the name has put the lexer in version mode. */
  lemma VersionName(t: Tables, m: Mode)
    requires Sound(t) && "a" !in t.keywords && !InVersion(m) && InVersion(After(m, Identifier("a")))
    ensures Lex(t, VERSION, 6, m).tokens ==
      [Spanned(7, Identifier("a"), 8), Spanned(9, Number("0", ""), 10), Spanned(10, Symbol("."), 11),
       Spanned(11, Number("8", ""), 12), Spanned(12, Symbol(";"), 13)]
  {
    var m' := After(m, Identifier("a"));
    VersionWords(t);
    SpaceMore(t, VERSION, 6, m);
    YieldsMore(t, VERSION, 7, m, Identifier("a"), 8);
    SpaceMore(t, VERSION, 8, m');
    VersionRest(t, m');
  }

  /** In a pragma a version is three tokens, and not a number with a fraction. */
  lemma VersionRead(t: Tables)
    requires Sound(t) && "pragma" in t.keywords && t.keywords["pragma"] == "pragma" && "a" !in t.keywords
    ensures Lex(t, VERSION, 0, START).tokens == [
      Spanned(0, Keyword("pragma"), 6), Spanned(7, Identifier("a"), 8), Spanned(9, Number("0", ""), 10),
      Spanned(10, Symbol("."), 11), Spanned(11, Number("8", ""), 12), Spanned(12, Symbol(";"), 13)]
  {
    VersionWords(t);
    YieldsMore(t, VERSION, 0, START, Keyword("pragma"), 6);
    VersionName(t, After(START, Keyword("pragma")));
  }
}

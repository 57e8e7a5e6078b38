/**
 Printing the tokens of a source and lexing the result gives the same tokens back, exactly if no
 string literal holds a double quote that is not escaped.
 */
module Relexing {
  import opened Tokens
  import opened Lexing

  /** The text x is in s at p. */
  ghost predicate At(s: string, p: nat, x: string) {
    p + |x| <= |s| && s[p..p + |x|] == x
  }

  /** Nothing or a space comes at e. */
  ghost predicate Ends(s: string, e: nat) {
    e == |s| || Is(s, e, ' ')
  }

  /** The body holds a double quote that is not escaped. */
  predicate HasQuote(body: string, escaped: bool) {
    body != "" && ((!escaped && body[0] == '"') || HasQuote(body[1..], !escaped && body[0] == '\\'))
  }

  predicate Misquoted(k: Token) {
    k.StringLiteral? && HasQuote(k.body, false)
  }

  /** What was read is token k from p to end and no more, or another token if k is misquoted. */
  ghost predicate Reads(r: Step, k: Token, p: nat, end: nat) {
    if Misquoted(k) then r.out.Got? && r.out.value.token != k
    else r == Yield(p, k, end)
  }

  /** Token k was read. */
  ghost predicate From(r: Step, k: Token) {
    r.out.Got? && r.out.value.token == k
  }

  /** Text x is in s at p, with nothing or a space behind it. */
  ghost predicate Placed(s: string, p: nat, x: string) {
    At(s, p, x) && Ends(s, p + |x|)
  }

  ghost predicate Relexed(t: Tables, s: string, p: nat, semver: bool, k: Token, end: nat) {
    p < |s| && p < end && Reads(StepAt(t, s, p, semver), k, p, end)
  }

  // ---------------------------------------------------------------------------
  // Texts

  lemma AtSplit(s: string, p: nat, x: string, y: string)
    requires At(s, p, x + y)
    ensures At(s, p, x) && At(s, p + |x|, y)
  {
    assert s[p..p + |x|] == (x + y)[..|x|];
    assert s[p + |x|..p + |x| + |y|] == (x + y)[|x|..];
  }

  lemma AtChar(s: string, p: nat, x: string, i: nat)
    requires At(s, p, x) && i < |x|
    ensures s[p + i] == x[i]
  {
    assert s[p..p + |x|][i] == x[i];
  }

  /** The text of s from a to b is x. */
  ghost predicate Spelt(x: string, s: string, a: nat, b: nat) {
    a <= b <= |s| && x == s[a..b]
  }

  lemma SpeltAt(x: string, s: string, a: nat, b: nat)
    requires At(s, a, x) && b == a + |x|
    ensures Spelt(x, s, a, b)
  {
  }

  /** The text from a to b, copied to a', ends there at b'. */
  ghost predicate Copied(s: string, a: nat, b: nat, s': string, a': nat, b': nat) {
    a <= b <= |s| && Spelt(s[a..b], s', a', b')
  }

  lemma CopiedAt(s: string, a: nat, b: nat, s': string, a': nat, b': nat)
    requires a <= b <= |s| && At(s', a', s[a..b]) && b' == a' + b - a
    ensures Copied(s, a, b, s', a', b')
  {
  }

  lemma CopiedChar(s: string, a: nat, b: nat, s': string, a': nat, b': nat, c: nat, c': nat)
    requires Copied(s, a, b, s', a', b') && a <= c < b && c' == a' + c - a
    ensures c' < b' && s'[c'] == s[c]
  {
    assert |s[a..b]| == |s'[a'..b']|;
    assert s[a..b][c - a] == s'[a'..b'][c - a];
  }

  /** Parts of a copied text are copied. */
  lemma CopiedPart(s: string, a: nat, b: nat, s': string, a': nat, b': nat, c: nat, e: nat, c': nat, e': nat)
    requires Copied(s, a, b, s', a', b') && a <= c <= e <= b && c' == a' + c - a && e' == a' + e - a
    ensures Copied(s, c, e, s', c', e')
  {
    assert |s[a..b]| == |s'[a'..b']|;
    Subslice(s, a, b, c, e);
    Subslice(s', a', b', c', e');
  }

  lemma Subslice(s: string, a: nat, b: nat, c: nat, e: nat)
    requires a <= c <= e <= b <= |s|
    ensures s[c..e] == s[a..b][c - a..e - a]
  {
    var u, v := s[c..e], s[a..b][c - a..e - a];
    forall i | 0 <= i < |u|
      ensures u[i] == v[i]
    {
      assert v[i] == s[a..b][c - a + i];
    }
  }

  /** A run of characters copied to a place where no more of its kind follow is a run there. */
  lemma RunCopied(t: Tables, k: Kind, s: string, a: nat, b: nat, s': string, a': nat, b': nat)
    requires a <= |s| && Run(t, k, s, a) == b && Copied(s, a, b, s', a', b')
    requires b' < |s'| ==> !InKind(t, k, s'[b'])
    ensures Run(t, k, s', a') == b'
  {
    RunIs(t, k, s, a);
    assert |s[a..b]| == |s'[a'..b']|;
    forall i | a' <= i < b'
      ensures InKind(t, k, s'[i])
    {
      CopiedChar(s, a, b, s', a', b', a + i - a', i);
    }
    RunUnique(t, k, s', a', b');
  }

  // ---------------------------------------------------------------------------
  // Words

  /** A token that a word lexes to prints as a word that lexes to it. */
  lemma WordPrinted(t: Tables, id: string)
    requires Sound(t) && IsWord(t, id)
    ensures var x := Display(WordToken(t, id)); IsWord(t, x) && WordToken(t, x) == WordToken(t, id)
  {
    if id in t.keywords {
      assert Canonical(t, id);
    }
  }

  lemma WordEndsAt(t: Tables, x: string, s: string, p: nat, e: nat)
    requires Sound(t) && IsWord(t, x) && At(s, p, x) && e == p + |x| && (e < |s| ==> !Continues(t, s[e]))
    ensures Starts(t, s[p]) && Run(t, Word, s, p + 1) == e
  {
    AtChar(s, p, x, 0);
    forall i | p + 1 <= i < e
      ensures InKind(t, Word, s[i])
    {
      AtChar(s, p, x, i - p);
    }
    RunUnique(t, Word, s, p + 1, e);
  }

  lemma WordLexed(t: Tables, x: string, s: string, p: nat, e: nat)
    requires Sound(t) && IsWord(t, x) && At(s, p, x) && e == p + |x| && Ends(s, e)
    ensures Starts(t, s[p]) && WordStep(t, s, p) == Yield(p, WordToken(t, x), e)
  {
    WordEndsAt(t, x, s, p, e);
  }

  lemma LexedWord(t: Tables, s: string, p: nat)
    requires p < |s| && Starts(t, s[p])
    ensures IsWord(t, s[p..Run(t, Word, s, p + 1)])
  {
    RunIs(t, Word, s, p + 1);
    var e := Run(t, Word, s, p + 1);
    forall i | 0 < i < e - p
      ensures Continues(t, s[p..e][i])
    {
      assert InKind(t, Word, s[p + i]);
    }
  }

  lemma RelexWord(t: Tables, id: string, k: Token, x: string, s: string, p: nat, end: nat)
    requires Sound(t) && IsWord(t, id) && k == WordToken(t, id) && x == Display(k) && Placed(s, p, x) && end == p + |x|
    ensures p < |s| && p < end && Starts(t, s[p]) && WordStep(t, s, p) == Yield(p, k, end)
  {
    WordPrinted(t, id);
    WordLexed(t, x, s, p, end);
  }

  // ---------------------------------------------------------------------------
  // Strings

  /** The body of a string, put between double quotes, ends there or at the first double quote not escaped in it. */
  lemma {:induction false} StringCopied(s: string, p: nat, quote: char, escaped: bool, z: nat, s': string, p': nat,
                                        z': nat)
    requires p <= |s| && z == StringEnd(s, p, quote, escaped) < |s| && Copied(s, p, z, s', p', z') && Is(s', z', '"')
    ensures var end := StringEnd(s', p', '"', escaped);
      if HasQuote(s[p..z], escaped) then end < z' else end == z'
    decreases |s| - p
  {
    assert |s[p..z]| == |s'[p'..z']|;
    if escaped || s[p] != quote {
      assert s[p..z][1..] == s[p + 1..z];
      CopiedChar(s, p, z, s', p', z', p, p');
      CopiedPart(s, p, z, s', p', z', p + 1, z, p' + 1, z');
      StringCopied(s, p + 1, quote, !escaped && s[p] == '\\', z, s', p' + 1, z');
    }
  }

  /** A body between double quotes from p on, up to z'. */
  lemma BodyRead(s: string, p: nat, quote: char, z: nat, s': string, p': nat, z': nat, y: nat)
    requires p <= |s| && z == StringEnd(s, p, quote, false) < |s| && Copied(s, p, z, s', p', z') && Is(s', z', '"')
    requires y == StringEnd(s', p', '"', false)
    ensures y < |s'| && if HasQuote(s[p..z], false) then s'[p'..y] != s[p..z] else y == z' && s'[p'..y] == s[p..z]
  {
    StringCopied(s, p, quote, false, z, s', p', z');
    if HasQuote(s[p..z], false) {
      assert |s'[p'..y]| < |s'[p'..z']|;
    }
  }

  lemma RelexString(s: string, p: nat, quote: char, z: nat, k: Token, s': string, p': nat, z': nat, end: nat)
    requires p <= |s| && z == StringEnd(s, p, quote, false) < |s| && k == StringLiteral(false, s[p..z])
    requires Is(s', p', '"') && Copied(s, p, z, s', p' + 1, z') && Is(s', z', '"') && end == z' + 1
    ensures Reads(StringStep(s', p'), k, p', end)
  {
    BodyRead(s, p, quote, z, s', p' + 1, z', StringEnd(s', p' + 1, '"', false));
  }

  /** Where the parts of a printed string are. */
  lemma StringPieces(s: string, p: nat, z: nat, x: string, s': string, p': nat, z': nat)
    requires p <= z <= |s| && x == "\"" + s[p..z] + "\"" && At(s', p', x) && z' == p' + 1 + z - p
    ensures z' + 1 == p' + |x| && Is(s', p', '"') && Copied(s, p, z, s', p' + 1, z') && Is(s', z', '"')
  {
    AtSplit(s', p', "\"" + s[p..z], "\"");
    AtSplit(s', p', "\"", s[p..z]);
    AtChar(s', p', "\"", 0);
    AtChar(s', z', "\"", 0);
  }

  /** The three words that a quote may follow. */
  lemma PrefixWords(t: Tables)
    requires Sound(t)
    ensures IsWord(t, "unicode") && IsWord(t, "hex") && IsWord(t, "address")
  {
  }

  lemma QuotedWord(t: Tables, w: string, s: string, p: nat, e: nat)
    requires Sound(t) && IsWord(t, w) && At(s, p, w) && e == p + |w| < |s| && IsQuote(s[e])
    ensures Starts(t, s[p])
    ensures w == "unicode" ==> WordStep(t, s, p) == UnicodeStep(t, s, p, e)
    ensures w == "hex" ==> WordStep(t, s, p) == HexStep(t, s, p, e)
    ensures w == "address" ==> WordStep(t, s, p) == AddressStep(t, s, p, e)
  {
    WordEndsAt(t, w, s, p, e);
  }

  lemma UnicodePieces(s: string, p: nat, z: nat, x: string, s': string, p': nat, e': nat, z': nat)
    requires p <= z <= |s| && x == "unicode\"" + s[p..z] + "\"" && At(s', p', x) && e' == p' + 7 && z' == e' + 1 + z - p
    ensures z' + 1 == p' + |x| && At(s', p', "unicode") && Is(s', e', '"') && Copied(s, p, z, s', e' + 1, z')
    ensures Is(s', z', '"')
  {
    var y := "\"" + s[p..z] + "\"";
    assert x == "unicode" + y;
    AtSplit(s', p', "unicode", y);
    StringPieces(s, p, z, y, s', e', z');
  }

  lemma UnicodeRead(t: Tables, s: string, p: nat, quote: char, z: nat, k: Token, s': string, p': nat, e': nat, z': nat,
                    end: nat)
    requires p <= |s| && z == StringEnd(s, p, quote, false) < |s| && k == StringLiteral(true, s[p..z])
    requires p' < e' && Is(s', e', '"') && Copied(s, p, z, s', e' + 1, z') && Is(s', z', '"') && end == z' + 1
    ensures Reads(UnicodeStep(t, s', p', e'), k, p', end)
  {
    BodyRead(s, p, quote, z, s', e' + 1, z', StringEnd(s', e' + 1, '"', false));
  }

  lemma RelexUnicode(t: Tables, s: string, p: nat, quote: char, z: nat, k: Token, s': string, p': nat, e': nat,
                     z': nat, end: nat)
    requires Sound(t) && p <= |s| && z == StringEnd(s, p, quote, false) < |s| && k == StringLiteral(true, s[p..z])
    requires At(s', p', "unicode") && e' == p' + 7 && Is(s', e', '"') && Copied(s, p, z, s', e' + 1, z')
    requires Is(s', z', '"') && end == z' + 1
    ensures Starts(t, s'[p']) && Reads(WordStep(t, s', p'), k, p', end)
  {
    UnicodeRead(t, s, p, quote, z, k, s', p', e', z', end);
    PrefixWords(t);
    QuotedWord(t, "unicode", s', p', e');
  }

  // ---------------------------------------------------------------------------
  // Hex and address literals

  /** A literal that starts with word w and a quote, and ends with that quote. */
  lemma LiteralPieces(s: string, p: nat, e: nat, w: string, z: nat, s': string, p': nat, e': nat, z': nat, end: nat)
    requires p <= e < z < |s| && s[p..e] == w && s[z] == s[e] && Copied(s, p, z + 1, s', p', end)
    requires e' == p' + e - p && z' == p' + z - p && end == z' + 1
    ensures At(s', p', w) && e' == p' + |w| && Is(s', e', s[e]) && Is(s', z', s[e])
    ensures Copied(s, e + 1, z, s', e' + 1, z')
  {
    CopiedPart(s, p, z + 1, s', p', end, p, e, p', e');
    CopiedChar(s, p, z + 1, s', p', end, e, e');
    CopiedChar(s, p, z + 1, s', p', end, z, z');
    CopiedPart(s, p, z + 1, s', p', end, e + 1, z, e' + 1, z');
  }

  lemma HexDispatch(t: Tables, s: string, p: nat, e: nat, q: char, h: nat, x: string, end: nat)
    requires p < e && Is(s, e, q) && h == Run(t, HexDigits, s, e + 1) && Is(s, h, q) && end == h + 1 && x == s[p..end]
    ensures HexStep(t, s, p, e) == Yield(p, HexLiteral(x), end)
  {
  }

  lemma HexRead(t: Tables, s: string, p: nat, e: nat, q: char, h: nat, x: string, s': string, p': nat, e': nat,
                h': nat, end: nat)
    requires p <= e < |s| && IsQuote(q) && h == Run(t, HexDigits, s, e + 1) && end == h' + 1
    requires p' < e' && Is(s', e', q) && Is(s', h', q) && Copied(s, e + 1, h, s', e' + 1, h') && x == s'[p'..end]
    ensures HexStep(t, s', p', e') == Yield(p', HexLiteral(x), end)
  {
    RunCopied(t, HexDigits, s, e + 1, h, s', e' + 1, h');
    HexDispatch(t, s', p', e', q, h', x, end);
  }

  lemma RelexHex(t: Tables, s: string, p: nat, e: nat, h: nat, s': string, p': nat, e': nat, h': nat, end: nat)
    requires Sound(t) && p <= e < |s| && s[p..e] == "hex" && IsQuote(s[e]) && h == Run(t, HexDigits, s, e + 1)
    requires Is(s, h, s[e])
    requires Copied(s, p, h + 1, s', p', end) && e' == p' + e - p && h' == p' + h - p && end == h' + 1
    ensures p' < |s'| && Starts(t, s'[p']) && WordStep(t, s', p') == Yield(p', HexLiteral(s[p..h + 1]), end)
  {
    LiteralPieces(s, p, e, "hex", h, s', p', e', h', end);
    HexRead(t, s, p, e, s[e], h, s[p..h + 1], s', p', e', h', end);
    PrefixWords(t);
    QuotedWord(t, "hex", s', p', e');
  }

  lemma AddressDispatch(t: Tables, s: string, p: nat, e: nat, q: char, z: nat, x: string, end: nat)
    requires p < e && Is(s, e, q) && z == Run(t, Until(q), s, e + 1) < |s| && end == z + 1 && x == s[p..end]
    ensures AddressStep(t, s, p, e) == Yield(p, AddressLiteral(x), end)
  {
  }

  lemma AddressRead(t: Tables, s: string, p: nat, e: nat, q: char, z: nat, x: string, s': string, p': nat, e': nat,
                    z': nat, end: nat)
    requires p <= e < |s| && z == Run(t, Until(q), s, e + 1) && Is(s, z, q) && end == z' + 1
    requires p' < e' && Is(s', e', q) && Is(s', z', q) && Copied(s, e + 1, z, s', e' + 1, z') && x == s'[p'..end]
    ensures AddressStep(t, s', p', e') == Yield(p', AddressLiteral(x), end)
  {
    RunCopied(t, Until(q), s, e + 1, z, s', e' + 1, z');
    AddressDispatch(t, s', p', e', q, z', x, end);
  }

  lemma RelexAddress(t: Tables, s: string, p: nat, e: nat, z: nat, s': string, p': nat, e': nat, z': nat, end: nat)
    requires Sound(t) && p <= e < |s| && s[p..e] == "address" && IsQuote(s[e])
    requires z == Run(t, Until(s[e]), s, e + 1) < |s|
    requires Copied(s, p, z + 1, s', p', end) && e' == p' + e - p && z' == p' + z - p && end == z' + 1
    ensures p' < |s'| && Starts(t, s'[p']) && WordStep(t, s', p') == Yield(p', AddressLiteral(s[p..z + 1]), end)
  {
    RunIs(t, Until(s[e]), s, e + 1);
    LiteralPieces(s, p, e, "address", z, s', p', e', z', end);
    AddressRead(t, s, p, e, s[e], z, s[p..z + 1], s', p', e', z', end);
    PrefixWords(t);
    QuotedWord(t, "address", s', p', e');
  }

  // ---------------------------------------------------------------------------
  // Numbers

  lemma RelexHexNumber(t: Tables, s: string, p: nat, e: nat, s': string, p': nat, end: nat, semver: bool)
    requires p + 2 < |s| && s[p] == '0' && s[p + 1] == 'x' && IsHexDigit(s[p + 2])
    requires e == Run(t, HexDigits, s, p + 3) && Copied(s, p, e, s', p', end) && end == p' + e - p && Ends(s', end)
    ensures Is(s', p', '0') && NumberStep(t, s', p', semver) == Yield(p', HexNumber(s[p..e]), end)
  {
    CopiedChar(s, p, e, s', p', end, p, p');
    CopiedChar(s, p, e, s', p', end, p + 1, p' + 1);
    CopiedChar(s, p, e, s', p', end, p + 2, p' + 2);
    CopiedPart(s, p, e, s', p', end, p + 3, e, p' + 3, end);
    RunCopied(t, HexDigits, s, p + 3, e, s', p' + 3, end);
  }

  /** Exponent text y, printed in s at e, ends the text at end. */
  ghost predicate ExpPlaced(s: string, e: nat, y: string, end: nat) {
    At(s, e, Exponent(y)) && end == e + |Exponent(y)| && Ends(s, end)
  }

  /** The exponent after its letter: dashes up to d, digits up to the end. */
  lemma ExpLexed(t: Tables, s: string, e: nat, d: nat, to: nat, s': string, e': nat, d': nat, end: nat)
    requires e < |s| && d == Run(t, Dashes, s, e + 1) && to == Run(t, Digits, s, d) && d < to
    requires Is(s', e', 'e') && Copied(s, e + 1, to, s', e' + 1, end) && d' == e' + d - e && end == e' + to - e
    requires Ends(s', end)
    ensures ExpAt(t, s', e') == Exp(e' + 1, end)
  {
    RunIs(t, Digits, s, d);
    assert InKind(t, Digits, s[d]);
    CopiedChar(s, e + 1, to, s', e' + 1, end, d, d');
    CopiedPart(s, e + 1, to, s', e' + 1, end, e + 1, d, e' + 1, d');
    CopiedPart(s, e + 1, to, s', e' + 1, end, d, to, d', end);
    RunCopied(t, Dashes, s, e + 1, d, s', e' + 1, d');
    RunCopied(t, Digits, s, d, to, s', d', end);
  }

  lemma ExpPieces(s: string, e: nat, to: nat, s': string, e': nat, end: nat)
    requires e + 1 <= to <= |s| && At(s', e', "e" + s[e + 1..to]) && end == e' + to - e
    ensures Is(s', e', 'e') && Copied(s, e + 1, to, s', e' + 1, end)
  {
    AtSplit(s', e', "e", s[e + 1..to]);
    AtChar(s', e', "e", 0);
  }

  lemma RelexExp(t: Tables, s: string, e: nat, x: Exp, y: string, s': string, e': nat, end: nat)
    requires x == ExpAt(t, s, e) && !x.Missing? && y == ExpText(s, x) && ExpPlaced(s', e', y, end)
    ensures var x' := ExpAt(t, s', e'); !x'.Missing? && ExpText(s', x') == y && end == if x'.Exp? then x'.to else e'
  {
    if x.Exp? {
      var d := Run(t, Dashes, s, e + 1);
      assert y == s[e + 1..x.to] != "";
      ExpPieces(s, e, x.to, s', e', end);
      ExpLexed(t, s, e, d, x.to, s', e', e' + d - e, end);
    }
  }

  /** No digit, underscore or x comes at e. */
  ghost predicate NoDigit(s: string, e: nat) {
    e < |s| ==> !IsDigit(s[e]) && s[e] != '_' && s[e] != 'x'
  }

  /** What follows the digits of a printed number is not a digit. */
  lemma AfterNumber(s: string, e: nat, exponent: string)
    requires At(s, e, Exponent(exponent)) && Ends(s, e + |Exponent(exponent)|)
    ensures e == |s| || Is(s, e, 'e') || Is(s, e, ' ')
    ensures e < |s| ==> !IsDigit(s[e]) && s[e] != '_' && s[e] != '.' && s[e] != 'x'
  {
    if exponent != "" {
      AtChar(s, e, Exponent(exponent), 0);
    }
  }

  lemma NumberEndCopied(t: Tables, s: string, p: nat, i: nat, fraction: bool, f: nat, e: nat, x: Exp, k: Token,
                        s': string, p': nat, i': nat, f': nat, e': nat, end: nat)
    requires p <= i <= |s| && f <= e <= |s| && p' <= i' <= |s'| && f' <= e' <= |s'|
    requires Copied(s, p, i, s', p', i') && (fraction ==> Copied(s, f, e, s', f', e'))
    requires x == ExpAt(t, s, e) && !x.Missing? && ExpPlaced(s', e', ExpText(s, x), end)
    requires k == if fraction then RationalNumber(s[p..i], s[f..e], ExpText(s, x)) else Number(s[p..i], ExpText(s, x))
    ensures NumberEnd(t, s', p', i', fraction, f', e') == Yield(p', k, end)
  {
    RelexExp(t, s, e, x, ExpText(s, x), s', e', end);
  }

  /** Where the parts of a printed whole number are. */
  lemma NumberPieces(s: string, p: nat, i: nat, y: string, x: string, s': string, p': nat, i': nat, end: nat)
    requires p <= i <= |s| && x == s[p..i] + Exponent(y) && Placed(s', p', x) && i' == p' + i - p && end == p' + |x|
    ensures Copied(s, p, i, s', p', i') && ExpPlaced(s', i', y, end) && NoDigit(s', i') && !Is(s', i', '.')
  {
    NumberParts(s', p', i', s[p..i], y, x, end);
  }

  lemma NumberParts(s: string, p: nat, i: nat, integer: string, y: string, x: string, end: nat)
    requires x == integer + Exponent(y) && Placed(s, p, x) && i == p + |integer| && end == p + |x|
    ensures Spelt(integer, s, p, i) && ExpPlaced(s, i, y, end) && NoDigit(s, i) && !Is(s, i, '.')
  {
    AtSplit(s, p, integer, Exponent(y));
    SpeltAt(integer, s, p, i);
    AfterNumber(s, i, y);
  }

  lemma IntegerCopied(t: Tables, s: string, p: nat, i: nat, s': string, p': nat, i': nat)
    requires p < |s| && IsDigit(s[p]) && i == Run(t, Digits, s, p + 1) && Copied(s, p, i, s', p', i')
    requires i' == p' + i - p && NoDigit(s', i')
    ensures Is(s', p', s[p]) && !Is(s', p' + 1, 'x') && Run(t, Digits, s', p' + 1) == i'
  {
    CopiedChar(s, p, i, s', p', i', p, p');
    RunIs(t, Digits, s, p + 1);
    if i > p + 1 {
      CopiedChar(s, p, i, s', p', i', p + 1, p' + 1);
      assert InKind(t, Digits, s[p + 1]);
    }
    CopiedPart(s, p, i, s', p', i', p + 1, i, p' + 1, i');
    RunCopied(t, Digits, s, p + 1, i, s', p' + 1, i');
  }

  /** The point and the digits after it. */
  lemma FractionCopied(t: Tables, s: string, i: nat, e: nat, s': string, i': nat, e': nat)
    requires HasFraction(s, i) && e == Run(t, Digits, s, i + 1)
    requires Is(s', i', '.') && Copied(s, i + 1, e, s', i' + 1, e') && e' == i' + e - i && NoDigit(s', e')
    ensures HasFraction(s', i') && Run(t, Digits, s', i' + 1) == e'
  {
    RunIs(t, Digits, s, i + 1);
    assert InKind(t, Digits, s[i + 1]);
    CopiedChar(s, i + 1, e, s', i' + 1, e', i + 1, i' + 1);
    RunCopied(t, Digits, s, i + 1, e, s', i' + 1, e');
  }

  /** Where the parts of a printed rational number are. */
  lemma RationalPieces(s: string, p: nat, i: nat, e: nat, y: string, x: string, s': string, p': nat, i': nat, e': nat,
                       end: nat)
    requires p <= i < e <= |s| && x == s[p..i] + "." + s[i + 1..e] + Exponent(y) && Placed(s', p', x)
    requires i' == p' + i - p && e' == p' + e - p && end == p' + |x|
    ensures Copied(s, p, i, s', p', i') && Is(s', i', '.') && Copied(s, i + 1, e, s', i' + 1, e')
    ensures ExpPlaced(s', e', y, end) && NoDigit(s', e')
  {
    RationalParts(s', p', i', e', s[p..i], s[i + 1..e], y, x, end);
  }

  lemma RationalParts(s: string, p: nat, i: nat, e: nat, integer: string, fraction: string, y: string, x: string,
                      end: nat)
    requires x == integer + "." + fraction + Exponent(y) && Placed(s, p, x)
    requires i == p + |integer| && e == i + 1 + |fraction| && end == p + |x|
    ensures Spelt(integer, s, p, i) && Is(s, i, '.') && Spelt(fraction, s, i + 1, e) && ExpPlaced(s, e, y, end)
    ensures NoDigit(s, e)
  {
    AtSplit(s, p, integer + "." + fraction, Exponent(y));
    AtSplit(s, p, integer + ".", fraction);
    AtSplit(s, p, integer, ".");
    AtChar(s, i, ".", 0);
    SpeltAt(integer, s, p, i);
    SpeltAt(fraction, s, i + 1, e);
    AfterNumber(s, e, y);
  }

  lemma PointCopied(t: Tables, s: string, p: nat, e: nat, y: Exp, k: Token, s': string, p': nat, e': nat, end: nat)
    requires HasFraction(s, p) && e == Run(t, Digits, s, p + 1) && y == ExpAt(t, s, e) && !y.Missing?
    requires k == RationalNumber(s[p..p], s[p + 1..e], ExpText(s, y)) && e' == p' + e - p
    requires Copied(s, p, p, s', p', p') && Is(s', p', '.') && Copied(s, p + 1, e, s', p' + 1, e')
    requires NoDigit(s', e') && ExpPlaced(s', e', ExpText(s, y), end)
    ensures HasFraction(s', p') && PointStep(t, s', p') == Yield(p', k, end)
  {
    FractionCopied(t, s, p, e, s', p', e');
    NumberEndCopied(t, s, p, p, true, p + 1, e, y, k, s', p', p', p' + 1, e', end);
    PointDispatch(t, s', p', e', Yield(p', k, end));
  }

  lemma PointDispatch(t: Tables, s: string, p: nat, e: nat, r: Step)
    requires p < |s| && e == Run(t, Digits, s, p + 1) && NumberEnd(t, s, p, p, true, p + 1, e) == r && !r.out.Nothing?
    ensures PointStep(t, s, p) == r
  {
  }

  lemma RelexPoint(t: Tables, s: string, p: nat, e: nat, y: Exp, k: Token, x: string, s': string, p': nat, end: nat)
    requires HasFraction(s, p) && e == Run(t, Digits, s, p + 1) && y == ExpAt(t, s, e) && !y.Missing?
    requires k == RationalNumber(s[p..p], s[p + 1..e], ExpText(s, y))
    requires x == s[p..p] + "." + s[p + 1..e] + Exponent(ExpText(s, y)) && Placed(s', p', x) && end == p' + |x|
    ensures HasFraction(s', p') && PointStep(t, s', p') == Yield(p', k, end)
  {
    var e' := p' + e - p;
    RationalPieces(s, p, p, e, ExpText(s, y), x, s', p', p', e', end);
    PointCopied(t, s, p, e, y, k, s', p', e', end);
  }

  /** Reading a decimal number at p is reading what comes after its integer part. */
  lemma WholeDispatch(t: Tables, s: string, p: nat, i: nat, r: Step)
    requires p < |s| && !Is(s, p + 1, 'x') && i == Run(t, Digits, s, p + 1) && !Is(s, i, '.')
    requires NumberEnd(t, s, p, i, false, i, i) == r
    ensures NumberStep(t, s, p, false) == r
  {
    assert !(s[p] == '0' && Is(s, p + 1, 'x'));
    assert !HasFraction(s, i);
  }

  lemma RationalDispatch(t: Tables, s: string, p: nat, i: nat, e: nat, r: Step)
    requires p < |s| && !Is(s, p + 1, 'x') && i == Run(t, Digits, s, p + 1) && HasFraction(s, i)
    requires e == Run(t, Digits, s, i + 1)
    requires NumberEnd(t, s, p, i, true, i + 1, e) == r
    ensures NumberStep(t, s, p, false) == r
  {
    assert !(s[p] == '0' && Is(s, p + 1, 'x'));
  }

  lemma RelexVersion(t: Tables, s: string, p: nat, i: nat, s': string, p': nat, end: nat)
    requires p < |s| && IsDigit(s[p]) && i == Run(t, Digits, s, p + 1) && Copied(s, p, i, s', p', end)
    requires end == p' + i - p && Ends(s', end)
    ensures Is(s', p', s[p]) && NumberStep(t, s', p', true) == Yield(p', Number(s[p..i], ""), end)
  {
    IntegerCopied(t, s, p, i, s', p', end);
  }

  lemma NumberCopied(t: Tables, s: string, p: nat, i: nat, y: Exp, k: Token, s': string, p': nat, i': nat, end: nat)
    requires p < |s| && IsDigit(s[p]) && i == Run(t, Digits, s, p + 1) && y == ExpAt(t, s, i) && !y.Missing?
    requires k == Number(s[p..i], ExpText(s, y)) && i' == p' + i - p
    requires Copied(s, p, i, s', p', i') && NoDigit(s', i') && !Is(s', i', '.') && ExpPlaced(s', i', ExpText(s, y), end)
    ensures Is(s', p', s[p]) && NumberStep(t, s', p', false) == Yield(p', k, end)
  {
    IntegerCopied(t, s, p, i, s', p', i');
    NumberEndCopied(t, s, p, i, false, i, i, y, k, s', p', i', i', i', end);
    WholeDispatch(t, s', p', i', Yield(p', k, end));
  }

  lemma RelexNumber(t: Tables, s: string, p: nat, i: nat, y: Exp, k: Token, x: string, s': string, p': nat, end: nat)
    requires p < |s| && IsDigit(s[p]) && i == Run(t, Digits, s, p + 1) && y == ExpAt(t, s, i) && !y.Missing?
    requires k == Number(s[p..i], ExpText(s, y)) && x == s[p..i] + Exponent(ExpText(s, y)) && Placed(s', p', x)
    requires end == p' + |x|
    ensures Is(s', p', s[p]) && NumberStep(t, s', p', false) == Yield(p', k, end)
  {
    var i' := p' + i - p;
    NumberPieces(s, p, i, ExpText(s, y), x, s', p', i', end);
    NumberCopied(t, s, p, i, y, k, s', p', i', end);
  }

  lemma RationalCopied(t: Tables, s: string, p: nat, i: nat, e: nat, y: Exp, k: Token, s': string, p': nat, i': nat,
                       e': nat, end: nat)
    requires p < |s| && IsDigit(s[p]) && i == Run(t, Digits, s, p + 1)
    requires HasFraction(s, i) && e == Run(t, Digits, s, i + 1) && y == ExpAt(t, s, e) && !y.Missing?
    requires k == RationalNumber(s[p..i], s[i + 1..e], ExpText(s, y)) && i' == p' + i - p && e' == p' + e - p
    requires Copied(s, p, i, s', p', i') && Is(s', i', '.') && Copied(s, i + 1, e, s', i' + 1, e') && NoDigit(s', e')
    requires ExpPlaced(s', e', ExpText(s, y), end)
    ensures Is(s', p', s[p]) && NumberStep(t, s', p', false) == Yield(p', k, end)
  {
    FractionCopied(t, s, i, e, s', i', e');
    IntegerCopied(t, s, p, i, s', p', i');
    NumberEndCopied(t, s, p, i, true, i + 1, e, y, k, s', p', i', i' + 1, e', end);
    RationalDispatch(t, s', p', i', e', Yield(p', k, end));
  }

  lemma RelexRational(t: Tables, s: string, p: nat, i: nat, e: nat, y: Exp, k: Token, x: string, s': string, p': nat,
                      end: nat)
    requires p < |s| && IsDigit(s[p]) && i == Run(t, Digits, s, p + 1)
    requires HasFraction(s, i) && e == Run(t, Digits, s, i + 1) && y == ExpAt(t, s, e) && !y.Missing?
    requires k == RationalNumber(s[p..i], s[i + 1..e], ExpText(s, y))
    requires x == s[p..i] + "." + s[i + 1..e] + Exponent(ExpText(s, y)) && Placed(s', p', x) && end == p' + |x|
    ensures Is(s', p', s[p]) && NumberStep(t, s', p', false) == Yield(p', k, end)
  {
    var i', e' := p' + i - p, p' + e - p;
    RationalPieces(s, p, i, e, ExpText(s, y), x, s', p', i', e', end);
    RationalCopied(t, s, p, i, e, y, k, s', p', i', e', end);
  }

  // ---------------------------------------------------------------------------
  // Annotations and symbols

  lemma RelexAnnotation(t: Tables, s: string, p: nat, e: nat, x: string, s': string, p': nat, end: nat)
    requires Sound(t) && p < |s| && e == Run(t, Word, s, p + 1) && e > p + 1
    requires x == "@" + s[p + 1..e] && Placed(s', p', x) && end == p' + |x|
    ensures Is(s', p', '@') && AnnotationStep(t, s', p') == Yield(p', Annotation(s[p + 1..e]), end)
  {
    AtSplit(s', p', "@", s[p + 1..e]);
    AtChar(s', p', "@", 0);
    CopiedAt(s, p + 1, e, s', p' + 1, end);
    RunCopied(t, Word, s, p + 1, e, s', p' + 1, end);
  }

  lemma RelexOperator(s: string, p: nat, s': string, p': nat)
    requires p < |s| && Operator(s, p) != "" && At(s', p', Operator(s, p)) && Ends(s', p' + |Operator(s, p)|)
    ensures p' < |s'| && s'[p'] == s[p] && Operator(s', p') == Operator(s, p)
  {
    var x := Operator(s, p);
    AtChar(s', p', x, 0);
    if |x| > 1 {
      AtChar(s', p', x, 1);
    }
    if |x| > 2 {
      AtChar(s', p', x, 2);
    }
  }

  lemma RelexSlash(t: Tables, x: string, s: string, p: nat)
    requires (x == "/" || x == "/=") && Placed(s, p, x)
    ensures Is(s, p, '/') && SlashStep(t, s, p) == Yield(p, Symbol(x), p + |x|)
  {
    AtChar(s, p, x, 0);
    if x == "/=" {
      AtChar(s, p, x, 1);
    }
  }

  // ---------------------------------------------------------------------------
  // Any token

  /** What the tokens that start with a word are, and how they are printed. */
  lemma WordTokens(t: Tables, s: string, p: nat, e: nat, k: Token)
    requires p < |s| && e == Run(t, Word, s, p + 1) && From(WordStep(t, s, p), k)
    ensures k == WordToken(t, s[p..e])
         || (e < |s| && var z := StringEnd(s, e + 1, s[e], false); z < |s| && k == StringLiteral(true, s[e + 1..z]))
         || (e == p + 3 < |s| && s[p..e] == "hex" && IsQuote(s[e]) &&
             var h := Run(t, HexDigits, s, e + 1); Is(s, h, s[e]) && k == HexLiteral(s[p..h + 1]))
         || (e == p + 7 < |s| && s[p..e] == "address" && IsQuote(s[e]) &&
             var z := Run(t, Until(s[e]), s, e + 1); z < |s| && k == AddressLiteral(s[p..z + 1]))
  {
  }

  lemma UnicodeToken(t: Tables, s: string, e: nat, z: nat, k: Token, x: string, s': string, p': nat, end: nat)
    requires Sound(t) && e < |s| && z == StringEnd(s, e + 1, s[e], false) < |s| && k == StringLiteral(true, s[e + 1..z])
    requires x == "unicode\"" + s[e + 1..z] + "\"" && Placed(s', p', x) && end == p' + |x|
    ensures p' < |s'| && p' < end && Starts(t, s'[p']) && Reads(WordStep(t, s', p'), k, p', end)
  {
    var e' := p' + 7;
    var z' := e' + z - e;
    UnicodePieces(s, e + 1, z, x, s', p', e', z');
    RelexUnicode(t, s, e + 1, s[e], z, k, s', p', e', z', end);
  }

  lemma HexToken(t: Tables, s: string, p: nat, e: nat, h: nat, k: Token, x: string, s': string, p': nat, end: nat)
    requires Sound(t) && p <= e < |s| && s[p..e] == "hex" && IsQuote(s[e]) && h == Run(t, HexDigits, s, e + 1)
    requires Is(s, h, s[e])
    requires x == s[p..h + 1] && k == HexLiteral(x) && Placed(s', p', x) && end == p' + |x|
    ensures p' < |s'| && p' < end && Starts(t, s'[p']) && Reads(WordStep(t, s', p'), k, p', end)
  {
    CopiedAt(s, p, h + 1, s', p', end);
    RelexHex(t, s, p, e, h, s', p', p' + e - p, p' + h - p, end);
  }

  lemma AddressToken(t: Tables, s: string, p: nat, e: nat, z: nat, k: Token, x: string, s': string, p': nat, end: nat)
    requires Sound(t) && p <= e < |s| && s[p..e] == "address" && IsQuote(s[e])
    requires z == Run(t, Until(s[e]), s, e + 1) < |s|
    requires x == s[p..z + 1] && k == AddressLiteral(x) && Placed(s', p', x) && end == p' + |x|
    ensures p' < |s'| && p' < end && Starts(t, s'[p']) && Reads(WordStep(t, s', p'), k, p', end)
  {
    CopiedAt(s, p, z + 1, s', p', end);
    RelexAddress(t, s, p, e, z, s', p', p' + e - p, p' + z - p, end);
  }

  lemma RelexWordStep(t: Tables, s: string, p: nat, k: Token, x: string, s': string, p': nat, end: nat)
    requires Sound(t) && p < |s| && Starts(t, s[p]) && x == Display(k) && Placed(s', p', x) && end == p' + |x|
    requires From(WordStep(t, s, p), k)
    ensures p' < |s'| && p' < end && Starts(t, s'[p']) && Reads(WordStep(t, s', p'), k, p', end)
  {
    var e := Run(t, Word, s, p + 1);
    WordTokens(t, s, p, e, k);
    if k == WordToken(t, s[p..e]) {
      LexedWord(t, s, p);
      RelexWord(t, s[p..e], k, x, s', p', end);
    } else if k.StringLiteral? {
      UnicodeToken(t, s, e, StringEnd(s, e + 1, s[e], false), k, x, s', p', end);
    } else if k.HexLiteral? {
      HexToken(t, s, p, e, Run(t, HexDigits, s, e + 1), k, x, s', p', end);
    } else {
      AddressToken(t, s, p, e, Run(t, Until(s[e]), s, e + 1), k, x, s', p', end);
    }
  }

  lemma StringToken(s: string, p: nat, z: nat, k: Token, x: string, s': string, p': nat, end: nat)
    requires p < |s| && z == StringEnd(s, p + 1, s[p], false) < |s| && k == StringLiteral(false, s[p + 1..z])
    requires x == "\"" + s[p + 1..z] + "\"" && Placed(s', p', x) && end == p' + |x|
    ensures p' < end && Is(s', p', '"') && Reads(StringStep(s', p'), k, p', end)
  {
    var z' := p' + z - p;
    StringPieces(s, p + 1, z, x, s', p', z');
    RelexString(s, p + 1, s[p], z, k, s', p', z', end);
  }

  /** What the tokens that start with a digit are. */
  lemma NumberTokens(t: Tables, s: string, p: nat, semver: bool, i: nat, k: Token)
    requires p < |s| && i == Run(t, Digits, s, p + 1)
    requires From(NumberStep(t, s, p, semver), k)
    ensures if s[p] == '0' && Is(s, p + 1, 'x') then
        p + 2 < |s| && IsHexDigit(s[p + 2]) && k == HexNumber(s[p..Run(t, HexDigits, s, p + 3)])
      else if semver then k == Number(s[p..i], "")
      else if HasFraction(s, i) then
        var e := Run(t, Digits, s, i + 1);
        var y := ExpAt(t, s, e); !y.Missing? && k == RationalNumber(s[p..i], s[i + 1..e], ExpText(s, y))
      else var y := ExpAt(t, s, i); !y.Missing? && k == Number(s[p..i], ExpText(s, y))
  {
  }

  lemma HexNumberToken(t: Tables, s: string, p: nat, e: nat, x: string, s': string, p': nat, end: nat, semver: bool)
    requires p + 2 < |s| && s[p] == '0' && s[p + 1] == 'x' && IsHexDigit(s[p + 2])
    requires e == Run(t, HexDigits, s, p + 3) && x == s[p..e] && Placed(s', p', x) && end == p' + |x|
    ensures Is(s', p', '0') && NumberStep(t, s', p', semver) == Yield(p', HexNumber(x), end)
  {
    CopiedAt(s, p, e, s', p', end);
    RelexHexNumber(t, s, p, e, s', p', end, semver);
  }

  lemma VersionToken(t: Tables, s: string, p: nat, i: nat, x: string, s': string, p': nat, end: nat)
    requires p < |s| && IsDigit(s[p]) && i == Run(t, Digits, s, p + 1) && x == s[p..i] && Placed(s', p', x)
    requires end == p' + |x|
    ensures Is(s', p', s[p]) && NumberStep(t, s', p', true) == Yield(p', Number(x, ""), end)
  {
    CopiedAt(s, p, i, s', p', end);
    RelexVersion(t, s, p, i, s', p', end);
  }

  lemma RelexNumberStep(t: Tables, s: string, p: nat, k: Token, x: string, s': string, p': nat, end: nat, semver: bool)
    requires p < |s| && IsDigit(s[p]) && x == Display(k) && Placed(s', p', x) && end == p' + |x|
    requires From(NumberStep(t, s, p, semver), k)
    ensures p' < |s'| && IsDigit(s'[p']) && NumberStep(t, s', p', semver) == Yield(p', k, end)
  {
    var i := Run(t, Digits, s, p + 1);
    NumberTokens(t, s, p, semver, i, k);
    if s[p] == '0' && Is(s, p + 1, 'x') {
      HexNumberToken(t, s, p, Run(t, HexDigits, s, p + 3), x, s', p', end, semver);
    } else if semver {
      VersionToken(t, s, p, i, s[p..i], s', p', end);
    } else if HasFraction(s, i) {
      var e := Run(t, Digits, s, i + 1);
      RelexRational(t, s, p, i, e, ExpAt(t, s, e), k, x, s', p', end);
    } else {
      RelexNumber(t, s, p, i, ExpAt(t, s, i), k, x, s', p', end);
    }
  }

  lemma RelexPointStep(t: Tables, s: string, p: nat, k: Token, x: string, s': string, p': nat, end: nat)
    requires HasFraction(s, p) && x == Display(k) && Placed(s', p', x) && end == p' + |x|
    requires From(PointStep(t, s, p), k)
    ensures HasFraction(s', p') && PointStep(t, s', p') == Yield(p', k, end)
  {
    var e := Run(t, Digits, s, p + 1);
    PointTokens(t, s, p, e, ExpAt(t, s, e), k);
    RelexPoint(t, s, p, e, ExpAt(t, s, e), k, x, s', p', end);
  }

  lemma PointTokens(t: Tables, s: string, p: nat, e: nat, y: Exp, k: Token)
    requires p < |s| && e == Run(t, Digits, s, p + 1) && y == ExpAt(t, s, e)
    requires From(PointStep(t, s, p), k)
    ensures !y.Missing? && k == RationalNumber(s[p..p], s[p + 1..e], ExpText(s, y))
  {
  }

  lemma SlashTokens(t: Tables, s: string, p: nat, k: Token)
    requires p < |s| && From(SlashStep(t, s, p), k)
    ensures k == Symbol("/") || k == Symbol("/=")
  {
  }

  /** What the step reads at p, by first character. */
  ghost predicate ReadsBy(t: Tables, s: string, p: nat, semver: bool, k: Token, end: nat) {
    && p < |s| && p < end
    && (|| (Starts(t, s[p]) && Reads(WordStep(t, s, p), k, p, end))
        || (IsQuote(s[p]) && Reads(StringStep(s, p), k, p, end))
        || (s[p] == '/' && Reads(SlashStep(t, s, p), k, p, end))
        || (IsDigit(s[p]) && Reads(NumberStep(t, s, p, semver), k, p, end))
        || (s[p] == '@' && Reads(AnnotationStep(t, s, p), k, p, end))
        || (HasFraction(s, p) && !semver && Reads(PointStep(t, s, p), k, p, end)))
  }

  lemma Dispatch(t: Tables, s: string, p: nat, semver: bool, k: Token, end: nat)
    requires Sound(t) && ReadsBy(t, s, p, semver, k, end)
    ensures Relexed(t, s, p, semver, k, end)
  {
  }

  lemma SymbolDispatch(t: Tables, s: string, p: nat, semver: bool, x: string, end: nat)
    requires Sound(t) && p < |s| && x == Operator(s, p) != "" && end == p + |x| && Ends(s, end)
    ensures Relexed(t, s, p, semver, Symbol(x), end)
  {
    assert !Starts(t, s[p]) && !IsQuote(s[p]) && s[p] != '/' && !IsDigit(s[p]) && s[p] != '@' && !HasFraction(s, p);
  }

  /** Which part of the lexer token k comes from. */
  ghost predicate ComesFrom(t: Tables, s: string, p: nat, semver: bool, k: Token) {
    && p < |s|
    && (|| (Starts(t, s[p]) && From(WordStep(t, s, p), k))
        || (IsQuote(s[p]) && From(StringStep(s, p), k))
        || (s[p] == '/' && From(SlashStep(t, s, p), k))
        || (IsDigit(s[p]) && From(NumberStep(t, s, p, semver), k))
        || (s[p] == '@' && From(AnnotationStep(t, s, p), k))
        || (HasFraction(s, p) && !semver && From(PointStep(t, s, p), k))
        || (Operator(s, p) != "" && k == Symbol(Operator(s, p))))
  }

  lemma Origin(t: Tables, s: string, p: nat, semver: bool, k: Token)
    requires p < |s| && From(StepAt(t, s, p, semver), k)
    ensures ComesFrom(t, s, p, semver, k)
  {
  }

  lemma WordAgain(t: Tables, s: string, p: nat, semver: bool, k: Token, x: string, s': string, p': nat, end: nat)
    requires Sound(t) && p < |s| && Starts(t, s[p]) && From(WordStep(t, s, p), k)
    requires x == Display(k) && Placed(s', p', x) && end == p' + |x|
    ensures Relexed(t, s', p', semver, k, end)
  {
    RelexWordStep(t, s, p, k, x, s', p', end);
    Dispatch(t, s', p', semver, k, end);
  }

  lemma StringAgain(t: Tables, s: string, p: nat, semver: bool, k: Token, x: string, s': string, p': nat, end: nat)
    requires Sound(t) && p < |s| && From(StringStep(s, p), k) && x == Display(k) && Placed(s', p', x) && end == p' + |x|
    ensures Relexed(t, s', p', semver, k, end)
  {
    StringToken(s, p, StringEnd(s, p + 1, s[p], false), k, x, s', p', end);
    Dispatch(t, s', p', semver, k, end);
  }

  lemma SlashAgain(t: Tables, s: string, p: nat, semver: bool, k: Token, x: string, s': string, p': nat, end: nat)
    requires Sound(t) && p < |s| && From(SlashStep(t, s, p), k) && x == Display(k) && Placed(s', p', x)
    requires end == p' + |x|
    ensures Relexed(t, s', p', semver, k, end)
  {
    SlashTokens(t, s, p, k);
    RelexSlash(t, x, s', p');
    Dispatch(t, s', p', semver, k, end);
  }

  lemma NumberAgain(t: Tables, s: string, p: nat, semver: bool, k: Token, x: string, s': string, p': nat, end: nat)
    requires Sound(t) && p < |s| && IsDigit(s[p]) && From(NumberStep(t, s, p, semver), k)
    requires x == Display(k) && Placed(s', p', x) && end == p' + |x|
    ensures Relexed(t, s', p', semver, k, end)
  {
    RelexNumberStep(t, s, p, k, x, s', p', end, semver);
    Dispatch(t, s', p', semver, k, end);
  }

  lemma AnnotationAgain(t: Tables, s: string, p: nat, semver: bool, k: Token, x: string, s': string, p': nat, end: nat)
    requires Sound(t) && p < |s| && From(AnnotationStep(t, s, p), k) && x == Display(k) && Placed(s', p', x)
    requires end == p' + |x|
    ensures Relexed(t, s', p', semver, k, end)
  {
    RelexAnnotation(t, s, p, Run(t, Word, s, p + 1), x, s', p', end);
    Dispatch(t, s', p', semver, k, end);
  }

  lemma PointAgain(t: Tables, s: string, p: nat, k: Token, x: string, s': string, p': nat, end: nat)
    requires Sound(t) && HasFraction(s, p) && From(PointStep(t, s, p), k) && x == Display(k) && Placed(s', p', x)
    requires end == p' + |x|
    ensures Relexed(t, s', p', false, k, end)
  {
    RelexPointStep(t, s, p, k, x, s', p', end);
    Dispatch(t, s', p', false, k, end);
  }

  lemma SymbolAgain(t: Tables, s: string, p: nat, semver: bool, x: string, s': string, p': nat, end: nat)
    requires Sound(t) && p < |s| && x == Operator(s, p) != "" && Placed(s', p', x) && end == p' + |x|
    ensures Relexed(t, s', p', semver, Symbol(x), end)
  {
    RelexOperator(s, p, s', p');
    SymbolDispatch(t, s', p', semver, x, end);
  }

  /** Whatever token a source has somewhere, its print is lexed as that token unless it is misquoted. */
  lemma Relex(t: Tables, s: string, p: nat, semver: bool, k: Token, x: string, s': string, p': nat, end: nat)
    requires Sound(t) && p < |s| && From(StepAt(t, s, p, semver), k)
    requires x == Display(k) && Placed(s', p', x) && end == p' + |x|
    ensures Relexed(t, s', p', semver, k, end)
  {
    Origin(t, s, p, semver, k);
    if Starts(t, s[p]) && From(WordStep(t, s, p), k) {
      WordAgain(t, s, p, semver, k, x, s', p', end);
    } else if IsQuote(s[p]) && From(StringStep(s, p), k) {
      StringAgain(t, s, p, semver, k, x, s', p', end);
    } else if s[p] == '/' && From(SlashStep(t, s, p), k) {
      SlashAgain(t, s, p, semver, k, x, s', p', end);
    } else if IsDigit(s[p]) && From(NumberStep(t, s, p, semver), k) {
      NumberAgain(t, s, p, semver, k, x, s', p', end);
    } else if s[p] == '@' && From(AnnotationStep(t, s, p), k) {
      AnnotationAgain(t, s, p, semver, k, x, s', p', end);
    } else if HasFraction(s, p) && !semver && From(PointStep(t, s, p), k) {
      PointAgain(t, s, p, k, x, s', p', end);
    } else {
      SymbolAgain(t, s, p, semver, x, s', p', end);
    }
  }

  // ---------------------------------------------------------------------------
  // Whole sources

  ghost function Bare(ks: seq<Spanned>): seq<Token> {
    if ks == [] then [] else [ks[0].token] + Bare(ks[1..])
  }

  /** The tokens read from p on. */
  ghost function TokensFrom(t: Tables, s: string, p: nat, m: Mode): seq<Token>
    requires p <= |s|
  {
    Bare(Lex(t, s, p, m).tokens)
  }

  lemma TokensStep(t: Tables, s: string, p: nat, m: Mode)
    requires p < |s|
    ensures var r := StepAt(t, s, p, InVersion(m));
      && p < r.pos <= |s|
      && TokensFrom(t, s, p, m) ==
         match r.out
         case Got(k) => [k.token] + TokensFrom(t, s, r.pos, After(m, k.token))
         case Nothing => TokensFrom(t, s, r.pos, m)
         case End => []
  {
    StepWithin(t, s, p, InVersion(m));
    var r := StepAt(t, s, p, InVersion(m));
    if r.out.Got? {
      var rest := Lex(t, s, r.pos, After(m, r.out.value.token)).tokens;
      assert ([r.out.value] + rest)[1..] == rest;
    }
  }

  lemma TokensSpace(t: Tables, s: string, p: nat, m: Mode)
    requires Sound(t) && Is(s, p, ' ')
    ensures TokensFrom(t, s, p, m) == TokensFrom(t, s, p + 1, m)
  {
    TokensStep(t, s, p, m);
    assert !Starts(t, ' ');
  }

  ghost predicate AllQuoted(ks: seq<Token>) {
    forall k | k in ks :: !Misquoted(k)
  }

  lemma AllQuotedHead(k: Token, ks: seq<Token>)
    ensures AllQuoted([k] + ks) <==> !Misquoted(k) && AllQuoted(ks)
  {
    assert forall j | j in [k] + ks :: j == k || j in ks;
    assert k in [k] + ks;
    assert forall j | j in ks :: j in [k] + ks;
  }

  /** The print of tokens: the first one, and then nothing or a space and the print of the others. */
  lemma PrintHead(k: Token, ks: seq<Token>, s: string, p: nat, end: nat)
    requires p <= |s| && s[p..] == Print([k] + ks) && end == p + |Display(k)|
    ensures Placed(s, p, Display(k)) && (if ks == [] then end == |s| else Is(s, end, ' ') && s[end + 1..] == Print(ks))
  {
    assert ([k] + ks)[1..] == ks;
    if ks == [] {
      assert s[p..] == Display(k);
    } else {
      TextHead(Display(k), Print(ks), s, p, end);
    }
  }

  lemma TextHead(x: string, y: string, s: string, p: nat, end: nat)
    requires p <= |s| && s[p..] == x + " " + y && end == p + |x|
    ensures Placed(s, p, x) && Is(s, end, ' ') && s[end + 1..] == y
  {
    assert s[p..] == x + (" " + y);
    AtSplit(s, p, x, " " + y);
    AtSplit(s, end, " ", y);
    AtChar(s, end, " ", 0);
  }

  /** The print of what is read from p on is read as the same tokens, if and only if none of them is misquoted. */
  lemma {:induction false} Again(t: Tables, s: string, p: nat, m: Mode, s': string, p': nat)
    requires Sound(t) && p <= |s| && p' <= |s'| && s'[p'..] == Print(TokensFrom(t, s, p, m))
    ensures TokensFrom(t, s', p', m) == TokensFrom(t, s, p, m) <==> AllQuoted(TokensFrom(t, s, p, m))
    decreases |s| - p, 1
  {
    if p < |s| {
      TokensStep(t, s, p, m);
      var r := StepAt(t, s, p, InVersion(m));
      if r.out.Got? {
        AgainToken(t, s, p, m, r.out.value.token, r.pos, s', p');
        AllQuotedHead(r.out.value.token, TokensFrom(t, s, r.pos, After(m, r.out.value.token)));
      } else if r.out.Nothing? {
        Again(t, s, r.pos, m, s', p');
      }
    }
  }

  /** The first token of a print. */
  lemma FirstAgain(t: Tables, s: string, p: nat, m: Mode, k: Token, s': string, p': nat, end: nat)
    requires Sound(t) && p < |s| && Placed(s', p', Display(k)) && end == p' + |Display(k)|
    requires From(StepAt(t, s, p, InVersion(m)), k)
    ensures var ks := TokensFrom(t, s', p', m);
      if Misquoted(k) then ks != [] && ks[0] != k else ks == [k] + TokensFrom(t, s', end, After(m, k))
  {
    Relex(t, s, p, InVersion(m), k, Display(k), s', p', end);
    FirstRead(t, s', p', m, k, end);
  }

  lemma FirstRead(t: Tables, s: string, p: nat, m: Mode, k: Token, end: nat)
    requires Relexed(t, s, p, InVersion(m), k, end) && end <= |s|
    ensures var ks := TokensFrom(t, s, p, m);
      if Misquoted(k) then ks != [] && ks[0] != k else ks == [k] + TokensFrom(t, s, end, After(m, k))
  {
    TokensStep(t, s, p, m);
  }

  lemma {:induction false} AgainToken(t: Tables, s: string, p: nat, m: Mode, k: Token, pos: nat, s': string, p': nat)
    requires Sound(t) && p < pos <= |s| && p' <= |s'|
    requires From(StepAt(t, s, p, InVersion(m)), k)
    requires s'[p'..] == Print([k] + TokensFrom(t, s, pos, After(m, k)))
    ensures TokensFrom(t, s', p', m) == [k] + TokensFrom(t, s, pos, After(m, k))
       <==> !Misquoted(k) && AllQuoted(TokensFrom(t, s, pos, After(m, k)))
    decreases |s| - p, 0
  {
    var m', ks, end := After(m, k), TokensFrom(t, s, pos, After(m, k)), p' + |Display(k)|;
    PrintHead(k, ks, s', p', end);
    FirstAgain(t, s, p, m, k, s', p', end);
    if !Misquoted(k) {
      AgainRest(t, s, pos, m', ks, s', end);
      SameTails(k, TokensFrom(t, s', end, m'), ks);
    }
  }

  lemma SameTails(k: Token, a: seq<Token>, b: seq<Token>)
    ensures [k] + a == [k] + b <==> a == b
  {
    assert ([k] + a)[1..] == a && ([k] + b)[1..] == b;
  }

  lemma {:induction false} AgainRest(t: Tables, s: string, pos: nat, m: Mode, ks: seq<Token>, s': string, end: nat)
    requires Sound(t) && pos <= |s| && end <= |s'| && ks == TokensFrom(t, s, pos, m)
    requires if ks == [] then end == |s'| else Is(s', end, ' ') && s'[end + 1..] == Print(ks)
    ensures TokensFrom(t, s', end, m) == ks <==> AllQuoted(ks)
    decreases |s| - pos, 2
  {
    if ks == [] {
      assert TokensFrom(t, s', end, m) == ks;
    } else {
      TokensSpace(t, s', end, m);
      Again(t, s, pos, m, s', end + 1);
      assert TokensFrom(t, s', end, m) == TokensFrom(t, s', end + 1, m);
    }
  }

  /** The tokens of a source text. */
  ghost function TokensOf(t: Tables, s: string): seq<Token> {
    TokensFrom(t, s, 0, START)
  }

  /** Printing the tokens of any source and lexing the print gives them back if and only if no string literal is
      misquoted. */
  lemma RoundTrip(t: Tables, s: string)
    requires Sound(t)
    ensures TokensOf(t, Print(TokensOf(t, s))) == TokensOf(t, s) <==> AllQuoted(TokensOf(t, s))
  {
    var x := Print(TokensOf(t, s));
    assert x[0..] == x;
    Again(t, s, 0, START, x, 0);
  }

  /** A source with a string literal that does not survive printing. */
  lemma SingleQuoted(t: Tables)
    requires Sound(t)
    ensures TokensOf(t, "'\"'") == [StringLiteral(false, "\"")] && !AllQuoted(TokensOf(t, "'\"'"))
  {
    var s := "'\"'";
    assert !Starts(t, s[0]);
    assert StringEnd(s, 2, '\'', false) == 2;
    assert StringEnd(s, 1, '\'', false) == 2;
    assert s[1..2] == "\"";
    TokensStep(t, s, 0, START);
    var k := StringLiteral(false, "\"");
    assert HasQuote(k.body, false);
    assert k in TokensOf(t, s);
  }
}

/**
 The tokens of the language by themselves: which text writes which token, and what is malformed.  Nothing
 here says how the lexer goes about it; Munching proves that it reads the longest token that there is.
 */
module Grammar {
  import opened Tokens
  import opened Lexing

  predicate DigitOrBar(c: char) {
    '0' <= c <= '9' || c == '_'
  }

  predicate HexOrBar(c: char) {
    '0' <= c <= '9' || 'a' <= c <= 'f' || 'A' <= c <= 'F' || c == '_'
  }

  ghost predicate DigitsAt(s: string, p: nat, e: nat) {
    p <= e <= |s| && forall i | p <= i < e :: DigitOrBar(s[i])
  }

  ghost predicate HexAt(s: string, p: nat, e: nat) {
    p <= e <= |s| && forall i | p <= i < e :: HexOrBar(s[i])
  }

  ghost predicate NamePart(t: Tables, s: string, p: nat, e: nat) {
    p <= e <= |s| && forall i | p <= i < e :: s[i] == '$' || t.xidContinue(s[i])
  }

  /** A name: a character that starts one, and others that go on with it. */
  ghost predicate WordAt(t: Tables, s: string, p: nat, e: nat) {
    p < e <= |s| && (s[p] == '_' || s[p] == '$' || t.xidStart(s[p])) && NamePart(t, s, p + 1, e)
  }

  ghost predicate IntegerAt(s: string, p: nat, i: nat) {
    p < i <= |s| && '0' <= s[p] <= '9' && DigitsAt(s, p, i)
  }

  /** A point, a digit, and more of them. */
  ghost predicate FractionAt(s: string, i: nat, j: nat) {
    i + 1 < j <= |s| && s[i] == '.' && '0' <= s[i + 1] <= '9' && DigitsAt(s, i + 1, j)
  }

  /** Any number of minus signs behind the letter of an exponent. */
  ghost predicate SignsAt(s: string, j: nat, d: nat) {
    j < d <= |s| && (s[j] == 'e' || s[j] == 'E') && forall i | j < i < d :: s[i] == '-'
  }

  ghost predicate ExponentAt(s: string, j: nat, d: nat, e: nat) {
    SignsAt(s, j, d) && d < e && DigitsAt(s, d, e)
  }

  /** A number without its exponent: an integer up to i, a fraction up to j, or both. */
  ghost predicate BodyAt(s: string, p: nat, i: nat, j: nat) {
    p <= i <= j <= |s| && p < j && (p < i ==> IntegerAt(s, p, i)) && (i < j ==> FractionAt(s, i, j))
  }

  /** The number k is written from p to e: its exponent, if any, starts at j and has its digits from d on. */
  ghost predicate NumberAt(s: string, p: nat, i: nat, j: nat, d: nat, e: nat, semver: bool, k: Token) {
    && BodyAt(s, p, i, j) && j <= e <= |s|
    && (semver ==> i == j == e)
    && (if j < e then ExponentAt(s, j, d, e) else d == e)
    && k == var exponent := if j < e then s[j + 1..e] else "";
            if i < j then RationalNumber(s[p..i], s[i + 1..j], exponent) else Number(s[p..i], exponent)
  }

  /** The quote q does not end the text from a to z: each one in it is escaped, and no escape is open at its end. */
  ghost predicate Unquoted(s: string, a: nat, z: nat, q: char, escaped: bool)
    decreases if a <= z then z - a else 0
  {
    && a <= z <= |s|
    && if a == z then !escaped
       else (escaped || s[a] != q) && Unquoted(s, a + 1, z, q, !escaped && s[a] == '\\')
  }

  /** A word and a quote stand at p, the quote at b. */
  ghost predicate Opens(s: string, p: nat, b: nat, word: string) {
    p <= b < |s| && s[p..b] == word && (s[b] == '"' || s[b] == '\'')
  }

  /** The quote at b is closed just before e. */
  ghost predicate Encloses(s: string, b: nat, e: nat) {
    b + 1 < e <= |s| && s[e - 1] == s[b]
  }

  /** The text from p to e writes token k. */
  ghost predicate TokenAt(t: Tables, s: string, p: nat, e: nat, semver: bool, k: Token) {
    p < e <= |s| &&
    match k
    case Identifier(name) => WordAt(t, s, p, e) && name == s[p..e] && name !in t.keywords
    case Keyword(word) => WordAt(t, s, p, e) && s[p..e] in t.keywords && t.keywords[s[p..e]] == word
    case StringLiteral(unicode, body) =>
      var b := if unicode then p + 7 else p;
      && Opens(s, p, b, if unicode then "unicode" else "") && Encloses(s, b, e)
      && Unquoted(s, b + 1, e - 1, s[b], false) && body == s[b + 1..e - 1]
    case HexLiteral(text) =>
      Opens(s, p, p + 3, "hex") && Encloses(s, p + 3, e) && HexAt(s, p + 4, e - 1) && text == s[p..e]
    case AddressLiteral(text) =>
      && Opens(s, p, p + 7, "address") && Encloses(s, p + 7, e) && text == s[p..e]
      && forall i | p + 7 < i < e - 1 :: s[i] != s[p + 7]
    case HexNumber(text) =>
      && p + 2 < e && s[p] == '0' && s[p + 1] == 'x' && s[p + 2] != '_' && HexAt(s, p + 2, e)
      && text == s[p..e]
    case Number(_, _) => exists i, j, d :: NumberAt(s, p, i, j, d, e, semver, k)
    case RationalNumber(_, _, _) => exists i, j, d :: NumberAt(s, p, i, j, d, e, semver, k)
    case Symbol(text) => text == s[p..e] && (IsSymbol(text) || text == "/" || text == "/=")
    case Annotation(name) => s[p] == '@' && p + 1 < e && NamePart(t, s, p + 1, e) && name == s[p + 1..e]
  }

  /** A comment starts at p. */
  ghost predicate CommentAt(s: string, p: nat) {
    p + 1 < |s| && s[p] == '/' && (s[p + 1] == '/' || s[p + 1] == '*')
  }

  ghost predicate NoLonger(t: Tables, s: string, p: nat, e: nat, semver: bool) {
    forall e': nat, k' | TokenAt(t, s, p, e', semver, k') :: e' <= e
  }

  /** The longest token at p ends at e. */
  ghost predicate Longest(t: Tables, s: string, p: nat, e: nat, semver: bool, k: Token) {
    && TokenAt(t, s, p, e, semver, k) && !CommentAt(s, p)
    && NoLonger(t, s, p, e, semver)
  }

  // ---------------------------------------------------------------------------
  // What is malformed

  /** A string is opened by the quote at b and never closed. */
  ghost predicate Unclosed(s: string, b: nat) {
    b < |s| && forall z | b < z < |s| && s[z] == s[b] :: !Unquoted(s, b + 1, z, s[b], false)
  }

  /** What stands at p is malformed, and error e says so. */
  ghost predicate Malformed(t: Tables, s: string, p: nat, semver: bool, e: LexicalError) {
    p < |s| &&
    match e
    case EndOfFileInString(from, to) =>
      && from == p && to == |s|
      && (|| (Opens(s, p, p, "") && Unclosed(s, p))
          || (Opens(s, p, p + 7, "unicode") && Unclosed(s, p + 7))
          || (Opens(s, p, p + 3, "hex") && HexAt(s, p + 4, |s|))
          || (Opens(s, p, p + 7, "address") && forall i | p + 7 < i < |s| :: s[i] != s[p + 7]))
    case InvalidCharacterInHexLiteral(h, to, c) =>
      && Opens(s, p, p + 3, "hex") && p + 4 <= h < |s| && HexAt(s, p + 4, h)
      && to == h + 1 && c == s[h] && !HexOrBar(c) && c != s[p + 3]
    case MissingNumber(from, to) =>
      && from == p && to == p + 1
      && p + 2 < |s| && s[p] == '0' && s[p + 1] == 'x' && (!HexOrBar(s[p + 2]) || s[p + 2] == '_')
    case EndofFileInHex(from, to) => from == p && to == |s| == p + 2 && s[p] == '0' && s[p + 1] == 'x'
    case MissingExponent(from, to) =>
      && from == p && to == |s| && !semver
      && exists i, j, d :: BodyAt(s, p, i, j) && SignsAt(s, j, d) && SignsEnd(s, d)
    case EndOfFileInComment(from, to) =>
      && from == p && to == |s| && p + 1 < |s| && s[p] == '/' && s[p + 1] == '*'
      && forall i | p + 2 <= i < |s| - 1 :: !(s[i] == '*' && s[i + 1] == '/')
    case UnrecognisedToken(from, to, text) =>
      && from == p < to <= |s| && text == s[p..to]
      && if s[p] == '@' then to == p + 1 && NoName(t, s, to) else NoStart(t, s, p) && DarkTo(t, s, p + 1, to)
  }

  /** No digit and no other sign comes at d. */
  ghost predicate SignsEnd(s: string, d: nat) {
    d < |s| ==> !DigitOrBar(s[d]) && s[d] != '-'
  }

  ghost predicate NoName(t: Tables, s: string, p: nat) {
    p < |s| ==> s[p] != '$' && !t.xidContinue(s[p])
  }

  /** The character starts no token and no comment, and is not white space. */
  ghost predicate NoStart(t: Tables, s: string, p: nat)
    requires p < |s|
  {
    var c := s[p];
    && c != '_' && c != '$' && !t.xidStart(c) && c != '"' && c != '\'' && !('0' <= c <= '9')
    && c != '/' && c != '@' && !IsSymbol([c]) && !t.isWhitespace(c)
  }

  /** What is not white space goes on up to e. */
  ghost predicate DarkTo(t: Tables, s: string, p: nat, e: nat) {
    && p <= e <= |s| && (forall i | p <= i < e :: !t.isWhitespace(s[i]))
    && (e < |s| ==> t.isWhitespace(s[e]))
  }

  /** Where the lexer goes on after an error. */
  ghost predicate Resumes(s: string, p: nat, e: LexicalError, pos: nat) {
    p < pos <= |s| &&
    match e
    case InvalidCharacterInHexLiteral(h, _, _) =>
      // behind the next quote of the same kind, or at the end
      && h < pos && p + 3 < |s| && (forall i | h < i < pos - 1 :: s[i] != s[p + 3])
      && (pos == |s| || (h < pos - 1 && s[pos - 1] == s[p + 3]))
    case MissingNumber(_, _) => pos == p + 3
    case MissingExponent(_, _) => exists i, j :: BodyAt(s, p, i, j) && SignsAt(s, j, pos) && SignsEnd(s, pos)
    case UnrecognisedToken(_, to, _) => pos == if s[p] == '@' || to == |s| then to else to + 1
    case _ => pos == |s|
  }

  /** Whether an error ends the tokens, though input may be left. */
  ghost predicate EndsTokens(s: string, p: nat, e: LexicalError)
    requires p < |s|
  {
    match e
    case EndOfFileInString(_, _) => s[p] == 'h' || s[p] == 'a'
    case EndofFileInHex(_, _) => true
    case EndOfFileInComment(_, _) => true
    case MissingExponent(_, _) => s[p] == '.'
    case _ => false
  }
}

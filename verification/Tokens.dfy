/**
 The tokens of the Solidity lexer and how they are printed.
 */
module Tokens {

  /**
   Keyword tokens carry the word they print as, so Uint(256) is Keyword("uint256"), and punctuation and
   operators carry their text.
   */
  datatype Token =
    | Identifier(name: string)
    | StringLiteral(unicode: bool, body: string)
    | AddressLiteral(text: string)
    | HexLiteral(text: string)
    | Number(integer: string, exponent: string)
    | RationalNumber(integer: string, fraction: string, exponent: string)
    | HexNumber(text: string)
    | Keyword(word: string)
    | Symbol(text: string)
    | Annotation(name: string)

  /** The text a token prints as. */
  function Display(k: Token): (s: string) {
    match k
    case Identifier(name) => name
    case StringLiteral(false, body) => "\"" + body + "\""
    case StringLiteral(true, body) => "unicode\"" + body + "\""
    case AddressLiteral(text) => text
    case HexLiteral(text) => text
    case Number(integer, exponent) => integer + Exponent(exponent)
    case RationalNumber(integer, fraction, exponent) => integer + "." + fraction + Exponent(exponent)
    case HexNumber(text) => text
    case Keyword(word) => word
    case Symbol(text) => text
    case Annotation(name) => "@" + name
  }

  function Exponent(exponent: string): string {
    if exponent == "" then "" else "e" + exponent
  }

  /** Tokens separated by single spaces. */
  function Print(ks: seq<Token>): string {
    if ks == [] then "" else if |ks| == 1 then Display(ks[0]) else Display(ks[0]) + " " + Print(ks[1..])
  }

  predicate IsLetter(c: char) {
    'a' <= c <= 'z' || 'A' <= c <= 'Z'
  }

  predicate IsDigit(c: char) {
    '0' <= c <= '9'
  }

  predicate IsHexDigit(c: char) {
    IsDigit(c) || 'a' <= c <= 'f' || 'A' <= c <= 'F'
  }

  predicate IsQuote(c: char) {
    c == '"' || c == '\''
  }

  /** What the lexer takes from Unicode, and its map from words to keyword tokens. */
  datatype Tables = Tables(
    xidStart: char -> bool,
    xidContinue: char -> bool,
    isWhitespace: char -> bool,
    keywords: map<string, string>
  )

  predicate Starts(t: Tables, c: char) {
    c == '_' || c == '$' || t.xidStart(c)
  }

  predicate Continues(t: Tables, c: char) {
    c == '$' || t.xidContinue(c)
  }

  predicate IsWord(t: Tables, w: string) {
    w != "" && Starts(t, w[0]) && forall i | 0 < i < |w| :: Continues(t, w[i])
  }

  /** A keyword token prints as a word that is looked up as that very token. */
  ghost predicate Canonical(t: Tables, w: string)
    requires w in t.keywords
  {
    var k := t.keywords[w];
    k in t.keywords && t.keywords[k] == k && (k == w || IsWord(t, k))
  }

  /** The tables agree with Unicode on ASCII. */
  ghost predicate Sound(t: Tables) {
    && (forall c: char | c as int < 128 :: t.xidStart(c) <==> IsLetter(c))
    && (forall c: char | c as int < 128 :: t.xidContinue(c) <==> IsLetter(c) || IsDigit(c) || c == '_')
    && t.isWhitespace(' ')
    && forall w | w in t.keywords :: Canonical(t, w)
  }

  const BYTES: seq<string> := [
    "bytes1", "bytes2", "bytes3", "bytes4", "bytes5", "bytes6", "bytes7", "bytes8", "bytes9", "bytes10", "bytes11",
    "bytes12", "bytes13", "bytes14", "bytes15", "bytes16", "bytes17", "bytes18", "bytes19", "bytes20", "bytes21",
    "bytes22", "bytes23", "bytes24", "bytes25", "bytes26", "bytes27", "bytes28", "bytes29", "bytes30", "bytes31",
    "bytes32"
  ]

  const INTS: seq<string> := [
    "int8", "int16", "int24", "int32", "int40", "int48", "int56", "int64", "int72", "int80", "int88", "int96",
    "int104", "int112", "int120", "int128", "int136", "int144", "int152", "int160", "int168", "int176", "int184",
    "int192", "int200", "int208", "int216", "int224", "int232", "int240", "int248", "int256"
  ]

  const UINTS: seq<string> := [
    "uint8", "uint16", "uint24", "uint32", "uint40", "uint48", "uint56", "uint64", "uint72", "uint80", "uint88",
    "uint96", "uint104", "uint112", "uint120", "uint128", "uint136", "uint144", "uint152", "uint160", "uint168",
    "uint176", "uint184", "uint192", "uint200", "uint208", "uint216", "uint224", "uint232", "uint240", "uint248",
    "uint256"
  ]

  const WORDS: seq<string> := [
    "address", "anonymous", "bool", "break", "bytes", "byte", "calldata", "case", "constant", "constructor",
    "continue", "contract", "default", "delete", "do", "else", "emit", "enum", "event", "external", "false", "for",
    "function", "if", "import", "indexed", "interface", "internal", "leave", "library", "mapping", "memory", "new",
    "payable", "pragma", "private", "public", "pure", "returns", "return", "revert", "storage", "string", "struct",
    "switch", "throw", "true", "type", "view", "while", "try", "catch", "receive", "fallback", "as", "is", "abstract",
    "virtual", "override", "using", "modifier", "immutable", "unchecked", "assembly", "let", "persistent",
    "temporary", "instance"
  ]

  /** The KEYWORDS map: every word is its own token but for int and uint. */
  function KeywordTable(): (m: map<string, string>)
  {
    (map w | w in WORDS + BYTES + INTS + UINTS :: w)["int" := "int256"]["uint" := "uint256"]
  }

  /** With that map and any Unicode tables that are right on ASCII, the tables are sound. */
  lemma KeywordsSound(t: Tables)
    requires t.keywords == KeywordTable() && t.isWhitespace(' ')
    requires forall c: char | c as int < 128 :: t.xidStart(c) <==> IsLetter(c)
    requires forall c: char | c as int < 128 :: t.xidContinue(c) <==> IsLetter(c) || IsDigit(c) || c == '_'
    ensures Sound(t)
  {
    AliasesListed();
    AliasWords(t);
  }

  lemma AliasesListed()
    ensures "int256" in INTS && "uint256" in UINTS
  {
  }

  lemma AliasWords(t: Tables)
    requires forall c: char | c as int < 128 :: t.xidStart(c) <==> IsLetter(c)
    requires forall c: char | c as int < 128 :: t.xidContinue(c) <==> IsLetter(c) || IsDigit(c) || c == '_'
    ensures IsWord(t, "int256") && IsWord(t, "uint256")
  {
  }

  /** Every word of the map is its own token, but int and uint are int256 and uint256. */
  lemma KeywordMeaning(w: string)
    ensures w in KeywordTable() <==> w in WORDS + BYTES + INTS + UINTS || w == "int" || w == "uint"
    ensures w in KeywordTable() ==>
      KeywordTable()[w] == if w == "int" then "int256" else if w == "uint" then "uint256" else w
  {
  }

  /** With int and uint there are 166 words. */
  lemma KeywordCount()
    ensures |WORDS| + |BYTES| + |INTS| + |UINTS| + 2 == 166
  {
  }
}

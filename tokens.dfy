/** Value types of the tokenizer: character classes, tokens, marks, groups,
    the static character tables and the parse errors. */
module Tokens {

  datatype Option<T> = None | Some(value: T)

  datatype Result<T, E> = Ok(value: T) | Err(error: E)

  /** Categories produced by the external character classifier. */
  datatype CharType =
    | Space
    | ContentHalf
    | ContentFull
    | PunctuationHalf
    | PunctuationFull
    | Unknown

  /** Kinds of mark: bracket pairs, and the multi-character hyper kinds. */
  datatype MarkType = Brackets | Hyper | Raw

  datatype MarkSide = Left | Right

  /** The type tag of a leaf token: a character class (content and plain
      punctuation), the mark-content tag of a mark kind ("mark-brackets",
      "mark-hyper", ...), or a pre-scanned multi-character content run. */
  datatype TokenType =
    | Plain(charType: CharType)
    | MarkContent(markType: MarkType)
    | HyperContent

  type MarkId = nat
  type GroupId = nat

  /** A leaf token. `mark` refers to a mark slot by id (a back-reference). */
  datatype Token = Token(
    kind: TokenType,
    content: string,
    raw: string,
    index: int,
    length: int,
    mark: Option<MarkId>,
    markSide: Option<MarkSide>)

  /** Metadata of a bracket-style span. `endIndex == -1` means still open;
      `rawEndContent` is absent until the mark is closed. */
  datatype Mark = Mark(
    kind: MarkType,
    startIndex: int,
    startContent: string,
    rawStartContent: string,
    endIndex: int,
    endContent: string,
    rawEndContent: Option<string>)

  /** A child of a group: a leaf token or a nested group, by id. */
  datatype Node = Leaf(token: Token) | Sub(group: GroupId)

  /** A quote-delimited container. The end fields are absent until closed. */
  datatype Group = Group(
    startIndex: int,
    startContent: string,
    rawStartContent: string,
    endIndex: Option<int>,
    endContent: Option<string>,
    rawEndContent: Option<string>,
    children: seq<Node>)

  /** The static character tables: bracket marks, quotes, shorthand
      apostrophes and the quote each shorthand character is paired with. */
  datatype CharTables = CharTables(
    markLeft: string,
    markRight: string,
    groupNeutral: string,
    groupLeft: string,
    groupRight: string,
    shorthand: string,
    shorthandPair: map<char, string>)

  /** Fatal errors of the scan, each with the offending character and index.
      NoEnclosingGroup is the failure of opening a group when no group is
      open and the group stack is empty. */
  datatype ParseError =
    | UnmatchedBracket(c: char, index: int)
    | UnmatchedQuote(c: char, index: int)
    | NoEnclosingGroup(c: char, index: int)

  /** String indexing that yields None outside the string (an out-of-range
      read gives an undefined character). */
  function CharAt(str: string, k: int): (r: Option<char>)
    ensures r.Some? <==> 0 <= k < |str|
    ensures r.Some? ==> r.value == str[k]
  {
    if 0 <= k < |str| then Some(str[k]) else None
  }
}

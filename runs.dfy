/** Runs of characters fed to the tokenizer one at a time, and the
    reference bracket matcher that runs of brackets are compared with. */
module Runs {
  import opened Tokens
  import opened Transitions

  /** Feeds the characters of `cs` as content of class `ty` at consecutive
      indices from `i`. */
  function ContentAll(s: State, cs: string, i: int, ty: CharType): (r: State)
    requires WellFormed(s)
    ensures WellFormed(r)
    ensures |r.groupArena| == |s.groupArena|
    decreases |cs|, 1
  {
    if cs == [] then s else ContentFirst(s, cs, i, ty)
  }

  /** Feeds the first character of `cs`, then the rest. */
  function ContentFirst(s: State, cs: string, i: int, ty: CharType): (r: State)
    requires WellFormed(s) && cs != []
    ensures WellFormed(r)
    ensures |r.groupArena| == |s.groupArena|
    decreases |cs|, 0
  {
    ContentAll(Content(s, i, cs[0], ty), cs[1..], i + 1, ty)
  }

  /** The ids of the open marks, outermost first. */
  function OpenMarks(s: State): seq<MarkId>
  {
    s.markStack + (if s.lastMark.Some? then [s.lastMark.value] else [])
  }

  /** The open marks are, outermost first, those opened by the characters of
      `stack`. */
  predicate OpensMatch(s: State, stack: seq<char>)
    requires WellFormed(s)
  {
    && |OpenMarks(s)| == |stack|
    && forall k :: 0 <= k < |stack| ==>
         OpenMarks(s)[k] < |s.markArena| && s.markArena[OpenMarks(s)[k]].startContent == [stack[k]]
  }

  /** Reference bracket matching on the characters alone: a stack of open
      bracket characters; a right bracket closes whatever is on top. Gives
      the final stack, or the position of the first right bracket that finds
      the stack empty. */
  function MatchBrackets(stack: seq<char>, cs: string, t: CharTables): Result<seq<char>, nat>
    decreases |cs|
  {
    if cs == [] then Ok(stack)
    else if cs[0] !in t.markLeft && stack == [] then Err(0)
    else
      var next := if cs[0] in t.markLeft then stack + [cs[0]] else stack[..|stack| - 1];
      match MatchBrackets(next, cs[1..], t)
      case Ok(final) => Ok(final)
      case Err(k) => Err(k + 1)
  }

  /** Feeds the characters of `cs` as punctuation at consecutive indices from
      `i`, stopping at the first error. */
  function PunctuateAll(s: State, cs: string, i: int, ty: CharType, t: CharTables): (r: Result<State, ParseError>)
    requires WellFormed(s)
    decreases |cs|, 1
  {
    if cs == [] then Ok(s) else PunctuateFirst(s, cs, i, ty, t)
  }

  /** Feeds the first character of `cs`, then, unless that failed, the rest. */
  function PunctuateFirst(s: State, cs: string, i: int, ty: CharType, t: CharTables): (r: Result<State, ParseError>)
    requires WellFormed(s) && cs != []
    decreases |cs|, 0
  {
    match Punctuate(s, i, cs[0], ty, t)
    case Err(e) => Err(e)
    case Ok(r) => PunctuateAll(r, cs[1..], i + 1, ty, t)
  }

  /** The status is well formed, floored, and its open marks are those of
      the reference stack `stack`. */
  predicate Tracks(s: State, stack: seq<char>)
  {
    WellFormed(s) && Floored(s) && OpensMatch(s, stack)
  }
}

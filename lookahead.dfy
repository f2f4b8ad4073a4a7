/** Read-only lookahead over the input text. */
module Lookahead {
  import opened Tokens

  /** Length of the run of space characters that begins at `start`: 0 when
      the character there is not a space, otherwise the distance to the first
      non-space character after it, or to the end of the text. Reads outside
      the text are classified like any other character (as `None`). */
  method GetConnectingSpaceLength(str: string, start: int, classify: Option<char> -> CharType) returns (n: int)
    ensures classify(CharAt(str, start)) != Space ==> n == 0
    ensures classify(CharAt(str, start)) == Space ==>
      && (forall j :: start <= j < start + n ==> classify(CharAt(str, j)) == Space)
      && (start + n == |str| || (1 <= n && start + n < |str| && classify(CharAt(str, start + n)) != Space))
    ensures 0 <= start < |str| ==>
      && 0 <= n <= |str| - start
      && (n == 0 <==> classify(Some(str[start])) != Space)
  {
    if classify(CharAt(str, start)) != Space {
      return 0;
    }
    var i := start + 1;
    while i < |str|
      invariant start < i
      invariant i <= |str| || i == start + 1
      invariant forall j :: start <= j < i ==> classify(CharAt(str, j)) == Space
    {
      if classify(CharAt(str, i)) != Space {
        return i - start;
      }
      i := i + 1;
    }
    return |str| - start;
  }
}

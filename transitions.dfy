/** The parse status as a value, and one function per operation of the
    tokenizer giving the status after that operation. The class in
    parse_status.dfy performs the same updates in place and is proved
    against these functions. */
module Transitions {
  import opened Tokens

  /** A snapshot of the parse status. Marks and groups live in arenas and are
      addressed by id; `marks` and `groups` record, in creation order, the ids
      of the marks opened by a left bracket and the groups opened by a quote. */
  datatype State = State(
    lastToken: Option<Token>,
    lastGroup: Option<GroupId>,
    lastMark: Option<MarkId>,
    markStack: seq<MarkId>,
    groupStack: seq<GroupId>,
    marks: seq<MarkId>,
    groups: seq<GroupId>,
    markArena: seq<Mark>,
    groupArena: seq<Group>)

  /** A child node refers only to existing slots, and a nested group was
      created after the group that holds it (so groups form a tree). */
  predicate NodeRefsOk(n: Node, parent: GroupId, markCount: nat, groupCount: nat)
  {
    match n
    case Leaf(t) => t.mark.Some? ==> t.mark.value < markCount
    case Sub(h) => parent < h < groupCount
  }

  predicate ArenaOk(arena: seq<Group>, markCount: nat)
  {
    forall g, k :: 0 <= g < |arena| && 0 <= k < |arena[g].children| ==>
      NodeRefsOk(arena[g].children[k], g, markCount, |arena|)
  }

  /** Every id held by the status names an existing slot. */
  predicate WellFormed(s: State)
  {
    && (s.lastGroup.Some? ==> s.lastGroup.value < |s.groupArena|)
    && (s.lastMark.Some? ==> s.lastMark.value < |s.markArena|)
    && (s.lastToken.Some? && s.lastToken.value.mark.Some? ==> s.lastToken.value.mark.value < |s.markArena|)
    && (forall k :: 0 <= k < |s.groupStack| ==> s.groupStack[k] < |s.groupArena|)
    && (forall k :: 0 <= k < |s.markStack| ==> s.markStack[k] < |s.markArena|)
    && (forall k :: 0 <= k < |s.groups| ==> s.groups[k] < |s.groupArena|)
    && (forall k :: 0 <= k < |s.marks| ==> s.marks[k] < |s.markArena|)
    && ArenaOk(s.groupArena, |s.markArena|)
  }

  /** The stacks only hold enclosing entities while one is open: with no open
      mark (group) the mark (group) stack is empty. Every operation keeps it. */
  predicate Floored(s: State)
  {
    && (s.lastMark.None? ==> s.markStack == [])
    && (s.lastGroup.None? ==> s.groupStack == [])
  }

  /** Number of open marks: the innermost one plus those on the stack. */
  function MarkDepth(s: State): nat
  {
    |s.markStack| + (if s.lastMark.Some? then 1 else 0)
  }

  /** Number of open groups: the innermost one plus those on the stack. */
  function GroupDepth(s: State): nat
  {
    |s.groupStack| + (if s.lastGroup.Some? then 1 else 0)
  }

  function Children(s: State, g: GroupId): seq<Node>
    requires g < |s.groupArena|
  {
    s.groupArena[g].children
  }

  /** The arena with node `n` appended to the children of group `g`. */
  function WithChild(arena: seq<Group>, g: GroupId, n: Node): (r: seq<Group>)
    requires g < |arena|
    ensures |r| == |arena|
    ensures r[g].children == arena[g].children + [n]
    ensures r[g].(children := arena[g].children) == arena[g]
    ensures forall h :: 0 <= h < |arena| && h != g ==> r[h] == arena[h]
  {
    arena[g := arena[g].(children := arena[g].children + [n])]
  }

  lemma WithChildOk(arena: seq<Group>, markCount: nat, g: GroupId, n: Node)
    requires g < |arena| && ArenaOk(arena, markCount)
    requires NodeRefsOk(n, g, markCount, |arena|)
    ensures ArenaOk(WithChild(arena, g, n), markCount)
  {
    var r := WithChild(arena, g, n);
    forall h, k | 0 <= h < |r| && 0 <= k < |r[h].children|
      ensures NodeRefsOk(r[h].children[k], h, markCount, |r|)
    {
      if h == g && k == |arena[g].children| {
        assert r[h].children[k] == n;
      } else {
        assert r[h].children[k] == arena[h].children[k];
      }
    }
  }

  /** Appends a leaf to the innermost open group; with no open group the
      leaf is dropped. */
  function AddLeaf(s: State, t: Token): (r: State)
    requires WellFormed(s)
    requires t.mark.Some? ==> t.mark.value < |s.markArena|
    ensures |r.groupArena| == |s.groupArena|
    ensures WellFormed(r)
    ensures s.lastGroup.None? ==> r == s
    ensures s.lastGroup.Some? ==> Children(r, s.lastGroup.value) == Children(s, s.lastGroup.value) + [Leaf(t)]
    ensures s.lastGroup.Some? ==>
      r.groupArena[s.lastGroup.value].(children := s.groupArena[s.lastGroup.value].children) == s.groupArena[s.lastGroup.value]
    ensures forall h :: 0 <= h < |s.groupArena| && Some(h) != s.lastGroup ==> r.groupArena[h] == s.groupArena[h]
    ensures r.(groupArena := s.groupArena) == s
  {
    match s.lastGroup
    case None => s
    case Some(g) =>
      WithChildOk(s.groupArena, |s.markArena|, g, Leaf(t));
      s.(groupArena := WithChild(s.groupArena, g, Leaf(t)))
  }

  // ---------------------------------------------------------------------
  // Finalizers

  /** Fixes the pending token's length, appends it to the innermost open
      group and clears it. */
  function FinalizeToken(s: State, index: int): (r: State)
    requires WellFormed(s)
    ensures |r.groupArena| == |s.groupArena|
    ensures WellFormed(r)
    ensures r.lastToken.None?
    ensures s.lastToken.None? ==> r == s
    ensures s.lastToken.Some? && s.lastGroup.Some? ==>
      var t := s.lastToken.value;
      Children(r, s.lastGroup.value) ==
        Children(s, s.lastGroup.value) + [Leaf(t.(length := index - t.index))]
    ensures s.lastGroup.Some? ==>
      r.groupArena[s.lastGroup.value].(children := s.groupArena[s.lastGroup.value].children) == s.groupArena[s.lastGroup.value]
    ensures forall h :: 0 <= h < |s.groupArena| && Some(h) != s.lastGroup ==> r.groupArena[h] == s.groupArena[h]
    ensures r.(groupArena := s.groupArena, lastToken := s.lastToken) == s
  {
    match s.lastToken
    case None => s
    case Some(t) => AddLeaf(s, t.(length := index - t.index)).(lastToken := None)
  }

  /** Closes the innermost open mark at `index` with `c` and reinstates the
      most recently pushed mark, if any. Nothing happens with no open mark. */
  function FinalizeMark(s: State, index: int, c: char): (r: State)
    requires WellFormed(s)
    ensures |r.markArena| == |s.markArena|
    ensures WellFormed(r)
    ensures s.lastMark.None? ==> r == s
    ensures s.lastMark.Some? ==>
      var m := s.lastMark.value;
      && r.markArena[m].endIndex == index
      && r.markArena[m].endContent == [c]
      && r.markArena[m].rawEndContent == Some([c])
      && r.markArena[m].(endIndex := s.markArena[m].endIndex, endContent := s.markArena[m].endContent,
                         rawEndContent := s.markArena[m].rawEndContent) == s.markArena[m]
    ensures forall m :: 0 <= m < |s.markArena| && Some(m) != s.lastMark ==> r.markArena[m] == s.markArena[m]
    ensures s.lastMark.Some? && s.markStack != [] ==>
      r.lastMark == Some(s.markStack[|s.markStack| - 1]) && r.markStack == s.markStack[..|s.markStack| - 1]
    ensures s.lastMark.Some? && s.markStack == [] ==> r.lastMark.None? && r.markStack == []
    ensures MarkDepth(r) == if s.lastMark.Some? then MarkDepth(s) - 1 else MarkDepth(s)
    ensures r.(lastMark := s.lastMark, markStack := s.markStack, markArena := s.markArena) == s
  {
    match s.lastMark
    case None => s
    case Some(m) =>
      var closed := s.markArena[m := s.markArena[m].(endIndex := index, endContent := [c], rawEndContent := Some([c]))];
      if |s.markStack| > 0 then
        s.(markArena := closed, lastMark := Some(s.markStack[|s.markStack| - 1]),
           markStack := s.markStack[..|s.markStack| - 1])
      else
        s.(markArena := closed, lastMark := None)
  }

  /** Records the end of the innermost open group (if any) and pops the group
      stack into `lastGroup`; with an empty stack `lastGroup` becomes absent,
      even when the group just closed was the root. */
  function FinalizeGroup(s: State, index: int, c: char): (r: State)
    requires WellFormed(s)
    ensures |r.groupArena| == |s.groupArena|
    ensures WellFormed(r)
    ensures s.lastGroup.Some? ==>
      var g := s.lastGroup.value;
      r.groupArena[g] == s.groupArena[g].(endIndex := Some(index), endContent := Some([c]), rawEndContent := Some([c]))
    ensures forall h :: 0 <= h < |s.groupArena| && Some(h) != s.lastGroup ==> r.groupArena[h] == s.groupArena[h]
    ensures s.groupStack != [] ==>
      r.lastGroup == Some(s.groupStack[|s.groupStack| - 1]) && r.groupStack == s.groupStack[..|s.groupStack| - 1]
    ensures s.groupStack == [] ==> r.lastGroup.None? && r.groupStack == []
    ensures GroupDepth(r) == if s.lastGroup.Some? then GroupDepth(s) - 1 else GroupDepth(s)
    ensures r.(lastGroup := s.lastGroup, groupStack := s.groupStack, groupArena := s.groupArena) == s
  {
    var closed :=
      match s.lastGroup
      case None => s.groupArena
      case Some(g) =>
        s.groupArena[g := s.groupArena[g].(endIndex := Some(index), endContent := Some([c]), rawEndContent := Some([c]))];
    assert forall h, k :: 0 <= h < |closed| && 0 <= k < |closed[h].children| ==>
      closed[h].children[k] == s.groupArena[h].children[k];
    if |s.groupStack| > 0 then
      s.(groupArena := closed, lastGroup := Some(s.groupStack[|s.groupStack| - 1]),
         groupStack := s.groupStack[..|s.groupStack| - 1])
    else
      s.(groupArena := closed, lastGroup := None)
  }

  // ---------------------------------------------------------------------
  // Bracket marks

  /** Pushes the open mark (if any), records a fresh open mark and makes it
      the innermost one. */
  function CreateBracket(s: State, index: int, c: char, kind: MarkType): (r: State)
    requires WellFormed(s)
    ensures WellFormed(r)
    ensures r.lastMark == Some(|s.markArena|)
    ensures r.markArena == s.markArena + [Mark(kind, index, [c], [c], -1, "", None)]
    ensures r.marks == s.marks + [|s.markArena|]
    ensures r.markStack == if s.lastMark.Some? then s.markStack + [s.lastMark.value] else s.markStack
    ensures MarkDepth(r) == MarkDepth(s) + 1
    ensures r.(lastMark := s.lastMark, markStack := s.markStack, marks := s.marks, markArena := s.markArena) == s
  {
    var stack := if s.lastMark.Some? then s.markStack + [s.lastMark.value] else s.markStack;
    var m := |s.markArena|;
    s.(markStack := stack,
       markArena := s.markArena + [Mark(kind, index, [c], [c], -1, "", None)],
       marks := s.marks + [m],
       lastMark := Some(m))
  }

  /** The one-character bracket token, pointing at the innermost open mark. */
  function BracketToken(s: State, index: int, c: char, side: MarkSide): Token
  {
    Token(MarkContent(Brackets), [c], [c], index, 1, s.lastMark, Some(side))
  }

  /** Emits a bracket token into the innermost open group and drops any
      pending token. */
  function AppendBracket(s: State, index: int, c: char, side: MarkSide): (r: State)
    requires WellFormed(s)
    ensures |r.groupArena| == |s.groupArena|
    ensures WellFormed(r)
    ensures r.lastToken.None?
    ensures s.lastGroup.Some? ==>
      Children(r, s.lastGroup.value) == Children(s, s.lastGroup.value) + [Leaf(BracketToken(s, index, c, side))]
    ensures s.lastGroup.Some? ==>
      r.groupArena[s.lastGroup.value].(children := s.groupArena[s.lastGroup.value].children) == s.groupArena[s.lastGroup.value]
    ensures forall h :: 0 <= h < |s.groupArena| && Some(h) != s.lastGroup ==> r.groupArena[h] == s.groupArena[h]
    ensures r.(groupArena := s.groupArena, lastToken := s.lastToken) == s
  {
    AddLeaf(s, BracketToken(s, index, c, side)).(lastToken := None)
  }

  // ---------------------------------------------------------------------
  // Hyper marks and hyper content

  /** The whole-span token of a hyper mark; its type is the mark-content tag
      of the mark's kind. */
  function HyperMarkToken(s: State, index: int, m: MarkId, content: string, side: MarkSide): Token
    requires m < |s.markArena|
  {
    Token(MarkContent(s.markArena[m].kind), content, content, index, |content|, Some(m), Some(side))
  }

  /** Emits one token covering a whole hyper-mark delimiter; a pending token
      is discarded, not finalized. */
  function AppendHyperMark(s: State, index: int, m: MarkId, content: string, side: MarkSide): (r: State)
    requires WellFormed(s)
    requires m < |s.markArena|
    ensures |r.groupArena| == |s.groupArena|
    ensures WellFormed(r)
    ensures r.lastToken.None?
    ensures s.lastGroup.Some? ==>
      Children(r, s.lastGroup.value) == Children(s, s.lastGroup.value) + [Leaf(HyperMarkToken(s, index, m, content, side))]
    ensures s.lastGroup.Some? ==>
      r.groupArena[s.lastGroup.value].(children := s.groupArena[s.lastGroup.value].children) == s.groupArena[s.lastGroup.value]
    ensures forall h :: 0 <= h < |s.groupArena| && Some(h) != s.lastGroup ==> r.groupArena[h] == s.groupArena[h]
    ensures r.(groupArena := s.groupArena, lastToken := s.lastToken) == s
  {
    AddLeaf(s, HyperMarkToken(s, index, m, content, side)).(lastToken := None)
  }

  function HyperContentToken(index: int, content: string): Token
  {
    Token(HyperContent, content, content, index, |content|, None, None)
  }

  /** Emits one content token covering a whole pre-scanned span; a pending
      token is discarded, not finalized. */
  function AppendHyperContent(s: State, index: int, content: string): (r: State)
    requires WellFormed(s)
    ensures |r.groupArena| == |s.groupArena|
    ensures WellFormed(r)
    ensures r.lastToken.None?
    ensures s.lastGroup.Some? ==>
      Children(r, s.lastGroup.value) == Children(s, s.lastGroup.value) + [Leaf(HyperContentToken(index, content))]
    ensures s.lastGroup.Some? ==>
      r.groupArena[s.lastGroup.value].(children := s.groupArena[s.lastGroup.value].children) == s.groupArena[s.lastGroup.value]
    ensures forall h :: 0 <= h < |s.groupArena| && Some(h) != s.lastGroup ==> r.groupArena[h] == s.groupArena[h]
    ensures r.(groupArena := s.groupArena, lastToken := s.lastToken) == s
  {
    AddLeaf(s, HyperContentToken(index, content)).(lastToken := None)
  }

  // ---------------------------------------------------------------------
  // Groups

  function NewGroup(index: int, c: char): Group
  {
    Group(index, [c], [c], None, None, None, [])
  }

  /** Opens a group: the open group (if any) is pushed, the new group becomes
      the last child of the group on top of the stack, is recorded in
      `groups` and becomes the innermost group. With no open group and an
      empty stack there is no parent and the operation fails, changing
      nothing. */
  function CreateNewGroup(s: State, index: int, c: char): (r: Result<State, ParseError>)
    requires WellFormed(s)
    ensures r.Err? <==> s.lastGroup.None? && s.groupStack == []
    ensures r.Err? ==> r.error == NoEnclosingGroup(c, index)
    ensures r.Ok? ==>
      var q := r.value;
      var g := |s.groupArena|;
      var stack := if s.lastGroup.Some? then s.groupStack + [s.lastGroup.value] else s.groupStack;
      var parent := stack[|stack| - 1];
      && WellFormed(q)
      && q.lastGroup == Some(g)
      && q.groupStack == stack
      && q.groups == s.groups + [g]
      && |q.groupArena| == g + 1
      && q.groupArena[g] == NewGroup(index, c)
      && Children(q, parent) == Children(s, parent) + [Sub(g)]
      && (forall h :: 0 <= h < g && h != parent ==> q.groupArena[h] == s.groupArena[h])
      && q.groupArena[parent].(children := s.groupArena[parent].children) == s.groupArena[parent]
      && GroupDepth(q) == GroupDepth(s) + 1
      && q.(lastGroup := s.lastGroup, groupStack := s.groupStack, groups := s.groups, groupArena := s.groupArena) == s
  {
    var stack := if s.lastGroup.Some? then s.groupStack + [s.lastGroup.value] else s.groupStack;
    if stack == [] then
      Err(NoEnclosingGroup(c, index))
    else
      var parent := stack[|stack| - 1];
      var g := |s.groupArena|;
      var grown := s.groupArena + [NewGroup(index, c)];
      assert ArenaOk(grown, |s.markArena|) by {
        forall h, k | 0 <= h < |grown| && 0 <= k < |grown[h].children|
          ensures NodeRefsOk(grown[h].children[k], h, |s.markArena|, |grown|)
        {
          assert grown[h] == s.groupArena[h];
        }
      }
      WithChildOk(grown, |s.markArena|, parent, Sub(g));
      Ok(s.(groupStack := stack,
            groupArena := WithChild(grown, parent, Sub(g)),
            lastGroup := Some(g),
            groups := s.groups + [g]))
  }

  // ---------------------------------------------------------------------
  // Content

  function ContentToken(index: int, c: char, ty: CharType): Token
  {
    Token(Plain(ty), [c], [c], index, 1, None, None)
  }

  /** Starts a new pending one-character token. */
  function CreateContent(s: State, index: int, c: char, ty: CharType): (r: State)
    requires WellFormed(s)
    ensures WellFormed(r)
    ensures r.lastToken == Some(ContentToken(index, c, ty))
    ensures r.(lastToken := s.lastToken) == s
  {
    s.(lastToken := Some(ContentToken(index, c, ty)))
  }

  /** Extends the pending token by one character; `raw` follows `content`.
      With no pending token nothing happens. */
  function AppendContent(s: State, c: char): (r: State)
    requires WellFormed(s)
    ensures WellFormed(r)
    ensures s.lastToken.None? ==> r == s
    ensures s.lastToken.Some? ==>
      var t := s.lastToken.value;
      && r.lastToken.Some?
      && r.lastToken.value.content == t.content + [c]
      && r.lastToken.value.raw == r.lastToken.value.content
      && r.lastToken.value.length == t.length + 1
      && r.lastToken.value.(content := t.content, raw := t.raw, length := t.length) == t
    ensures r.(lastToken := s.lastToken) == s
  {
    match s.lastToken
    case None => s
    case Some(t) =>
      var content := t.content + [c];
      s.(lastToken := Some(t.(content := content, raw := content, length := t.length + 1)))
  }

  /** Emits a one-character punctuation token into the innermost open group
      and leaves nothing pending. */
  function AddNormalPunctuation(s: State, index: int, c: char, ty: CharType): (r: State)
    requires WellFormed(s)
    ensures |r.groupArena| == |s.groupArena|
    ensures WellFormed(r)
    ensures r.lastToken.None?
    ensures s.lastGroup.Some? ==>
      Children(r, s.lastGroup.value) == Children(s, s.lastGroup.value) + [Leaf(ContentToken(index, c, ty))]
    ensures s.lastGroup.Some? ==>
      r.groupArena[s.lastGroup.value].(children := s.groupArena[s.lastGroup.value].children) == s.groupArena[s.lastGroup.value]
    ensures forall h :: 0 <= h < |s.groupArena| && Some(h) != s.lastGroup ==> r.groupArena[h] == s.groupArena[h]
    ensures r.(groupArena := s.groupArena, lastToken := s.lastToken) == s
  {
    AddLeaf(s, ContentToken(index, c, ty)).(lastToken := None)
  }

  // ---------------------------------------------------------------------
  // Dispatch

  /** How a punctuation character is handled, decided in this order: left
      bracket, right bracket, neutral quote, left quote, right quote, other. */
  datatype Route = OpenBracket | CloseBracket | NeutralQuote | OpenQuote | CloseQuote | OtherPunctuation

  function RouteOf(c: char, t: CharTables): (r: Route)
    ensures c in t.markLeft <==> r == OpenBracket
    ensures r == CloseBracket <==> c !in t.markLeft && c in t.markRight
    ensures r == NeutralQuote <==> c !in t.markLeft && c !in t.markRight && c in t.groupNeutral
    ensures r == OpenQuote <==>
      c !in t.markLeft && c !in t.markRight && c !in t.groupNeutral && c in t.groupLeft
    ensures r == CloseQuote <==>
      c !in t.markLeft && c !in t.markRight && c !in t.groupNeutral && c !in t.groupLeft && c in t.groupRight
  {
    if c in t.markLeft then OpenBracket
    else if c in t.markRight then CloseBracket
    else if c in t.groupNeutral then NeutralQuote
    else if c in t.groupLeft then OpenQuote
    else if c in t.groupRight then CloseQuote
    else OtherPunctuation
  }

  /** A neutral quote closes the innermost group exactly when that group was
      opened by the same character. */
  predicate ClosesNeutral(s: State, c: char)
    requires WellFormed(s)
  {
    s.lastGroup.Some? && [c] == s.groupArena[s.lastGroup.value].startContent
  }

  /** Handling of one punctuation character: the pending token is finalized
      first, then the character is routed. */
  function Punctuate(s: State, i: int, c: char, ty: CharType, t: CharTables): (r: Result<State, ParseError>)
    requires WellFormed(s)
    ensures r.Ok? ==> WellFormed(r.value) && r.value.lastToken.None?
    ensures r.Ok? && Floored(s) ==> Floored(r.value)
    ensures r == Err(UnmatchedBracket(c, i)) <==> RouteOf(c, t) == CloseBracket && s.lastMark.None?
    ensures r == Err(UnmatchedQuote(c, i)) <==> RouteOf(c, t) == CloseQuote && s.lastGroup.None?
    ensures r == Err(NoEnclosingGroup(c, i)) <==>
      && (RouteOf(c, t) == OpenQuote || (RouteOf(c, t) == NeutralQuote && !ClosesNeutral(s, c)))
      && s.lastGroup.None? && s.groupStack == []
    ensures r.Err? ==> r.error.c == c && r.error.index == i
  {
    var f := FinalizeToken(s, i);
    match RouteOf(c, t)
    case OpenBracket => Ok(AppendBracket(CreateBracket(f, i, c, Brackets), i, c, Left))
    case CloseBracket =>
      if f.lastMark.None? then Err(UnmatchedBracket(c, i))
      else Ok(FinalizeMark(AppendBracket(f, i, c, Right), i, c))
    case NeutralQuote =>
      if ClosesNeutral(f, c) then Ok(FinalizeGroup(f, i, c))
      else CreateNewGroup(f, i, c)
    case OpenQuote => CreateNewGroup(f, i, c)
    case CloseQuote =>
      if f.lastGroup.None? then Err(UnmatchedQuote(c, i))
      else Ok(FinalizeGroup(f, i, c))
    case OtherPunctuation => Ok(AddNormalPunctuation(f, i, c, ty))
  }

  /** Handling of one content character: merge into the pending token when
      the class is unchanged (or UNKNOWN), otherwise finalize it and start a
      new one. */
  function Content(s: State, i: int, c: char, ty: CharType): (r: State)
    requires WellFormed(s)
    ensures WellFormed(r)
    ensures |r.groupArena| == |s.groupArena|
    ensures r.lastToken.Some? && r.lastToken.value.raw == r.lastToken.value.content
    ensures StartsToken(s, ty) ==> r == CreateContent(FinalizeToken(s, i), i, c, ty)
    ensures !StartsToken(s, ty) ==>
      var t := s.lastToken.value;
      && r.lastToken.value.content == t.content + [c]
      && r.lastToken.value.length == t.length + 1
      && r.lastToken.value.(content := t.content, raw := t.raw, length := t.length) == t
      && r.(lastToken := s.lastToken) == s
  {
    match s.lastToken
    case None => CreateContent(s, i, c, ty)
    case Some(t) =>
      if ty != Unknown && t.kind != Plain(ty) then
        CreateContent(FinalizeToken(s, i), i, c, ty)
      else
        AppendContent(s, c)
  }

  /** A content character starts a new token when nothing is pending, or when
      its class is known and differs from the pending token's. */
  predicate StartsToken(s: State, ty: CharType)
  {
    s.lastToken.None? || (ty != Unknown && s.lastToken.value.kind != Plain(ty))
  }
}

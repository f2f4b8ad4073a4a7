/** Properties of the tokenizer operations that relate several calls: the
    stack discipline of marks and groups, the error conditions of
    punctuation, the merging of content runs, and concrete scenarios. */
module Properties {
  import opened Tokens
  import opened Transitions
  import opened Parser
  import opened Runs

  // ---------------------------------------------------------------------
  // Content runs

  /** Characters of the pending token's own class collapse into it: the
      pending token grows by exactly those characters and nothing else in the
      status changes. */
  lemma {:induction false} SameClassRunMerges(s: State, cs: string, i: int, ty: CharType)
    requires WellFormed(s)
    requires s.lastToken.Some? && s.lastToken.value.kind == Plain(ty)
    requires s.lastToken.value.raw == s.lastToken.value.content
    ensures var t := s.lastToken.value;
      ContentAll(s, cs, i, ty) ==
        s.(lastToken := Some(t.(content := t.content + cs, raw := t.content + cs, length := t.length + |cs|)))
    decreases |cs|
  {
    var t := s.lastToken.value;
    if cs == [] {
      assert t.content + cs == t.content;
    } else {
      var s1 := Content(s, i, cs[0], ty);
      assert s1 == s.(lastToken := Some(t.(content := t.content + [cs[0]], raw := t.content + [cs[0]], length := t.length + 1)));
      SameClassRunMerges(s1, cs[1..], i + 1, ty);
      assert t.content + [cs[0]] + cs[1..] == t.content + cs;
    }
  }

  /** A run of content characters of one known class, begun with nothing
      pending, becomes one pending token covering the whole run. */
  lemma RunBecomesOneToken(s: State, cs: string, i: int, ty: CharType)
    requires WellFormed(s) && s.lastToken.None?
    requires cs != [] && ty != Unknown
    ensures ContentAll(s, cs, i, ty) == s.(lastToken := Some(Token(Plain(ty), cs, cs, i, |cs|, None, None)))
  {
    var s1 := Content(s, i, cs[0], ty);
    SameClassRunMerges(s1, cs[1..], i + 1, ty);
    assert [cs[0]] + cs[1..] == cs;
  }

  /** A content character of a known class other than the pending token's
      finalizes that token at the character's index and starts a new
      one-character token; finalizing one index later leaves both tokens, in
      that order, as the last children of the open group. */
  lemma ContentSplitsOnClassChange(s: State, g: GroupId, i: int, d: char, ty: CharType) returns (r: State)
    requires WellFormed(s) && s.lastGroup == Some(g)
    requires s.lastToken.Some? && ty != Unknown && s.lastToken.value.kind != Plain(ty)
    ensures r == FinalizeToken(Content(s, i, d, ty), i + 1)
    ensures r.lastToken.None?
    ensures var x := s.lastToken.value;
      Children(r, g) == Children(s, g) + [Leaf(x.(length := i - x.index)), Leaf(ContentToken(i, d, ty))]
  {
    var x := s.lastToken.value;
    var s4 := Content(s, i, d, ty);
    assert s4 == FinalizeToken(s, i).(lastToken := Some(ContentToken(i, d, ty)));
    r := FinalizeToken(s4, i + 1);
    assert Children(r, g) == Children(s, g) + [Leaf(x.(length := i - x.index))] + [Leaf(ContentToken(i, d, ty))];
  }

  // ---------------------------------------------------------------------
  // Marks

  /** Opening a mark and then closing it restores the innermost mark and the
      mark stack, and leaves the new mark recorded with both ends. */
  lemma OpenThenCloseMarkRestores(s: State, i: int, c: char, kind: MarkType, j: int, d: char)
    requires WellFormed(s) && Floored(s)
    ensures var r := FinalizeMark(CreateBracket(s, i, c, kind), j, d);
      && r.lastMark == s.lastMark
      && r.markStack == s.markStack
      && r.marks == s.marks + [|s.markArena|]
      && r.markArena == s.markArena + [Mark(kind, i, [c], [c], j, [d], Some([d]))]
  {
    var r1 := CreateBracket(s, i, c, kind);
    var r := FinalizeMark(r1, j, d);
    if s.lastMark.Some? {
      assert r1.markStack[..|r1.markStack| - 1] == s.markStack;
    }
    assert r.markArena == s.markArena + [Mark(kind, i, [c], [c], j, [d], Some([d]))];
  }

  /** A left bracket pushes onto the open marks the mark it opens, as the
      reference pushes the character. */
  lemma OpenBracketStep(s: State, stack: seq<char>, i: int, c: char, ty: CharType, t: CharTables) returns (r: State)
    requires WellFormed(s) && Floored(s) && OpensMatch(s, stack)
    requires c in t.markLeft
    ensures Punctuate(s, i, c, ty, t) == Ok(r)
    ensures WellFormed(r) && Floored(r) && OpensMatch(r, stack + [c])
  {
    r := LeftBracketOpensMark(s, i, c, ty, t);
    PushKeepsMatch(s, r, stack, i, c);
  }

  lemma PushKeepsMatch(s: State, r: State, stack: seq<char>, i: int, c: char)
    requires WellFormed(s) && WellFormed(r) && OpensMatch(s, stack)
    requires r.lastMark == Some(|s.markArena|)
    requires r.markStack == if s.lastMark.Some? then s.markStack + [s.lastMark.value] else s.markStack
    requires r.markArena == s.markArena + [Mark(Brackets, i, [c], [c], -1, "", None)]
    ensures OpensMatch(r, stack + [c])
  {
    var m := |s.markArena|;
    assert OpenMarks(r) == OpenMarks(s) + [m];
    forall k | 0 <= k < |stack + [c]|
      ensures OpenMarks(r)[k] < |r.markArena| && r.markArena[OpenMarks(r)[k]].startContent == [(stack + [c])[k]]
    {
      if k < |stack| {
        assert OpenMarks(r)[k] == OpenMarks(s)[k];
      }
    }
  }

  /** A right bracket with marks open pops the innermost one, as the
      reference pops the character. */
  lemma CloseBracketStep(s: State, stack: seq<char>, i: int, c: char, ty: CharType, t: CharTables) returns (r: State)
    requires WellFormed(s) && Floored(s) && OpensMatch(s, stack)
    requires c !in t.markLeft && c in t.markRight && stack != []
    ensures Punctuate(s, i, c, ty, t) == Ok(r)
    ensures WellFormed(r) && Floored(r) && OpensMatch(r, stack[..|stack| - 1])
  {
    assert s.lastMark.Some?;
    r := RightBracketClosesMark(s, i, c, ty, t);
    PopKeepsMatch(s, r, stack);
  }

  lemma PopKeepsMatch(s: State, r: State, stack: seq<char>)
    requires WellFormed(s) && WellFormed(r) && OpensMatch(s, stack) && s.lastMark.Some?
    requires s.markStack != [] ==>
      r.lastMark == Some(s.markStack[|s.markStack| - 1]) && r.markStack == s.markStack[..|s.markStack| - 1]
    requires s.markStack == [] ==> r.lastMark.None? && r.markStack == []
    requires |r.markArena| == |s.markArena|
    requires r.markArena[s.lastMark.value].startContent == s.markArena[s.lastMark.value].startContent
    requires forall m :: 0 <= m < |s.markArena| && m != s.lastMark.value ==> r.markArena[m] == s.markArena[m]
    ensures OpensMatch(r, stack[..|stack| - 1])
  {
    assert OpenMarks(r) == OpenMarks(s)[..|OpenMarks(s)| - 1];
    forall k | 0 <= k < |stack| - 1
      ensures OpenMarks(r)[k] < |r.markArena| && r.markArena[OpenMarks(r)[k]].startContent == [stack[k]]
    {
      var m := OpenMarks(s)[k];
      assert OpenMarks(r)[k] == m;
      assert r.markArena[m].startContent == s.markArena[m].startContent;
    }
  }

  /** A right bracket with no mark open is the error UnmatchedBracket. */
  lemma UnmatchedBracketStep(s: State, i: int, c: char, ty: CharType, t: CharTables)
    requires WellFormed(s) && Floored(s) && OpenMarks(s) == []
    requires c !in t.markLeft && c in t.markRight
    ensures Punctuate(s, i, c, ty, t) == Err(UnmatchedBracket(c, i))
  {
  }

  /** A sequence of bracket characters that the reference matching accepts
      is accepted, and the open marks afterwards are those of the reference
      stack. */
  lemma {:induction false} BracketRunAccepted(
    s: State, stack: seq<char>, cs: string, i: int, ty: CharType, t: CharTables)
    returns (r: State)
    requires Tracks(s, stack)
    requires forall k :: 0 <= k < |cs| ==> cs[k] in t.markLeft || cs[k] in t.markRight
    requires MatchBrackets(stack, cs, t).Ok?
    ensures PunctuateAll(s, cs, i, ty, t) == Ok(r)
    ensures Tracks(r, MatchBrackets(stack, cs, t).value)
    decreases |cs|
  {
    if cs == [] {
      return s;
    }
    MatchUnfolds(stack, cs, t);
    var s1, next := BracketRunStep(s, stack, cs, i, ty, t);
    r := BracketRunAccepted(s1, next, cs[1..], i + 1, ty, t);
  }

  /** A sequence of bracket characters that the reference matching rejects
      at position `k` runs without error up to `k`, with no mark open, and
      the bracket at `k` is the error UnmatchedBracket with that bracket's
      own character and index. */
  lemma BracketRunRejected(s: State, stack: seq<char>, cs: string, i: int, ty: CharType, t: CharTables)
    returns (k: nat, r: State)
    requires WellFormed(s) && Floored(s) && OpensMatch(s, stack)
    requires forall j :: 0 <= j < |cs| ==> cs[j] in t.markLeft || cs[j] in t.markRight
    requires MatchBrackets(stack, cs, t).Err?
    ensures k == MatchBrackets(stack, cs, t).error && k < |cs|
    ensures PunctuateAll(s, cs[..k], i, ty, t) == Ok(r)
    ensures WellFormed(r) && OpenMarks(r) == []
    ensures Punctuate(r, i + k, cs[k], ty, t) == Err(UnmatchedBracket(cs[k], i + k))
  {
    k := MatchBrackets(stack, cs, t).error;
    RejectionPrefix(stack, cs, t);
    r := BracketRunAccepted(s, stack, cs[..k], i, ty, t);
    UnmatchedBracketStep(r, i + k, cs[k], ty, t);
  }

  /** Where the reference matching rejects, the characters before it leave
      the stack empty and the rejected character is a right bracket. */
  lemma {:induction false} RejectionPrefix(stack: seq<char>, cs: string, t: CharTables)
    requires MatchBrackets(stack, cs, t).Err?
    ensures MatchBrackets(stack, cs, t).error < |cs|
    ensures MatchBrackets(stack, cs[..MatchBrackets(stack, cs, t).error], t) == Ok([])
    ensures cs[MatchBrackets(stack, cs, t).error] !in t.markLeft
    decreases |cs|
  {
    if cs[0] !in t.markLeft && stack == [] {
      assert cs[..0] == [];
    } else {
      var next := if cs[0] in t.markLeft then stack + [cs[0]] else stack[..|stack| - 1];
      RejectionPrefix(next, cs[1..], t);
      var k := MatchBrackets(stack, cs, t).error;
      assert cs[..k][1..] == cs[1..][..k - 1];
    }
  }

  /** The first character of a bracket run that the reference accepts moves
      the status to one that matches the reference's next stack. */
  lemma BracketRunStep(s: State, stack: seq<char>, cs: string, i: int, ty: CharType, t: CharTables)
    returns (r: State, next: seq<char>)
    requires Tracks(s, stack)
    requires cs != [] && (cs[0] in t.markLeft || (cs[0] in t.markRight && stack != []))
    ensures next == if cs[0] in t.markLeft then stack + [cs[0]] else stack[..|stack| - 1]
    ensures Tracks(r, next)
    ensures Punctuate(s, i, cs[0], ty, t) == Ok(r)
  {
    var c := cs[0];
    next := if c in t.markLeft then stack + [c] else stack[..|stack| - 1];
    if c in t.markLeft {
      r := OpenBracketStep(s, stack, i, c, ty, t);
    } else {
      r := CloseBracketStep(s, stack, i, c, ty, t);
    }
  }

  lemma MatchUnfolds(stack: seq<char>, cs: string, t: CharTables)
    requires cs != [] && (cs[0] in t.markLeft || stack != [])
    ensures var next := if cs[0] in t.markLeft then stack + [cs[0]] else stack[..|stack| - 1];
      var tail := MatchBrackets(next, cs[1..], t);
      MatchBrackets(stack, cs, t) == if tail.Err? then Err(tail.error + 1) else tail
  {
  }

  /** With a bracket open, a right bracket of another kind still closes it:
      brackets are matched by nesting alone, not by kind. */
  lemma AnyRightBracketClosesOpenMark(s: State, i: int, c: char, d: char, ty: CharType, t: CharTables)
    requires WellFormed(s) && s.lastToken.None? && s.lastMark.None? && s.markStack == []
    requires c in t.markLeft && d !in t.markLeft && d in t.markRight
    ensures var r1 := Punctuate(s, i, c, ty, t);
      && r1.Ok?
      && var r2 := Punctuate(r1.value, i + 1, d, ty, t);
      && r2.Ok?
      && r2.value.lastMark.None?
      && r2.value.markArena[|s.markArena|].startContent == [c]
      && r2.value.markArena[|s.markArena|].endContent == [d]
  {
    var m := |s.markArena|;
    var r1 := AppendBracket(CreateBracket(s, i, c, Brackets), i, c, Left);
    assert Punctuate(s, i, c, ty, t) == Ok(r1);
    assert r1.lastMark == Some(m) && r1.markStack == [] && r1.lastToken.None?;
    var r2 := FinalizeMark(AppendBracket(r1, i + 1, d, Right), i + 1, d);
    assert Punctuate(r1, i + 1, d, ty, t) == Ok(r2);
  }

  /** A left bracket finalizes the pending token, pushes the open mark (if
      any), opens a fresh mark as the innermost one and appends to the open
      group a length-1 left bracket token referring to that new mark. */
  lemma LeftBracketOpensMark(s: State, i: int, c: char, ty: CharType, t: CharTables) returns (r: State)
    requires WellFormed(s) && c in t.markLeft
    ensures Punctuate(s, i, c, ty, t) == Ok(r)
    ensures r.lastMark == Some(|s.markArena|)
    ensures r.markStack == if s.lastMark.Some? then s.markStack + [s.lastMark.value] else s.markStack
    ensures r.marks == s.marks + [|s.markArena|]
    ensures r.markArena == s.markArena + [Mark(Brackets, i, [c], [c], -1, "", None)]
    ensures r.lastToken.None? && r.lastGroup == s.lastGroup && r.groupStack == s.groupStack
    ensures |r.groupArena| == |s.groupArena|
    ensures s.lastGroup.Some? ==>
      Children(r, s.lastGroup.value) == Children(FinalizeToken(s, i), s.lastGroup.value) +
        [Leaf(Token(MarkContent(Brackets), [c], [c], i, 1, Some(|s.markArena|), Some(Left)))]
    ensures r.groups == s.groups
    ensures forall h :: 0 <= h < |s.groupArena| && Some(h) != s.lastGroup ==> r.groupArena[h] == s.groupArena[h]
    ensures s.lastGroup.Some? ==>
      r.groupArena[s.lastGroup.value].(children := s.groupArena[s.lastGroup.value].children) == s.groupArena[s.lastGroup.value]
  {
    r := AppendBracket(CreateBracket(FinalizeToken(s, i), i, c, Brackets), i, c, Left);
  }

  /** A right bracket with a mark open finalizes the pending token, appends
      a length-1 right bracket token referring to that mark, records the
      mark's end, and reinstates the most recently pushed mark (or none). */
  lemma RightBracketClosesMark(s: State, i: int, c: char, ty: CharType, t: CharTables) returns (r: State)
    requires WellFormed(s) && s.lastMark.Some?
    requires c !in t.markLeft && c in t.markRight
    ensures Punctuate(s, i, c, ty, t) == Ok(r)
    ensures s.markStack != [] ==>
      r.lastMark == Some(s.markStack[|s.markStack| - 1]) && r.markStack == s.markStack[..|s.markStack| - 1]
    ensures s.markStack == [] ==> r.lastMark.None? && r.markStack == []
    ensures r.marks == s.marks && |r.markArena| == |s.markArena|
    ensures r.markArena[s.lastMark.value] ==
      s.markArena[s.lastMark.value].(endIndex := i, endContent := [c], rawEndContent := Some([c]))
    ensures forall m :: 0 <= m < |s.markArena| && m != s.lastMark.value ==> r.markArena[m] == s.markArena[m]
    ensures r.lastToken.None? && r.lastGroup == s.lastGroup && r.groupStack == s.groupStack
    ensures |r.groupArena| == |s.groupArena|
    ensures s.lastGroup.Some? ==>
      Children(r, s.lastGroup.value) == Children(FinalizeToken(s, i), s.lastGroup.value) +
        [Leaf(Token(MarkContent(Brackets), [c], [c], i, 1, s.lastMark, Some(Right)))]
    ensures r.groups == s.groups
    ensures forall h :: 0 <= h < |s.groupArena| && Some(h) != s.lastGroup ==> r.groupArena[h] == s.groupArena[h]
    ensures s.lastGroup.Some? ==>
      r.groupArena[s.lastGroup.value].(children := s.groupArena[s.lastGroup.value].children) == s.groupArena[s.lastGroup.value]
  {
    var f := FinalizeToken(s, i);
    r := FinalizeMark(AppendBracket(f, i, c, Right), i, c);
  }

  /** Scenario "(hi)" with any bracket pair and any two half-width content
      characters: the open group receives a left bracket token, one content
      token of length 2 and a right bracket token, both referring to the
      mark the left bracket opened. */
  lemma ParenthesizedWord(s: State, g: GroupId, o: char, a: char, b: char, e: char, t: CharTables)
    returns (r1: State, r3: State, r4: State)
    requires WellFormed(s) && s.lastToken.None? && s.lastMark.None? && s.markStack == [] && s.lastGroup == Some(g)
    requires o in t.markLeft && e !in t.markLeft && e in t.markRight
    ensures Punctuate(s, 0, o, PunctuationHalf, t) == Ok(r1)
    ensures WellFormed(r1) && r3 == ContentAll(r1, [a, b], 1, ContentHalf)
    ensures WellFormed(r3) && Punctuate(r3, 3, e, PunctuationHalf, t) == Ok(r4)
    ensures |r4.groupArena| == |s.groupArena|
    ensures Children(r4, g) == Children(s, g) + [
      Leaf(Token(MarkContent(Brackets), [o], [o], 0, 1, Some(|s.markArena|), Some(Left))),
      Leaf(Token(Plain(ContentHalf), [a, b], [a, b], 1, 2, None, None)),
      Leaf(Token(MarkContent(Brackets), [e], [e], 3, 1, Some(|s.markArena|), Some(Right)))]
  {
    r1 := LeftBracketOpensMark(s, 0, o, PunctuationHalf, t);
    var word := Token(Plain(ContentHalf), [a, b], [a, b], 1, 2, None, None);
    r3 := WordAfterBracket(r1, a, b);
    r4 := RightBracketClosesMark(r3, 3, e, PunctuationHalf, t);
    var f := FinalizeToken(r3, 3);
    assert Children(f, g) == Children(r1, g) + [Leaf(word)];
    AppendThree(Children(s, g), Children(r1, g), Children(f, g), Children(r4, g),
      Leaf(Token(MarkContent(Brackets), [o], [o], 0, 1, Some(|s.markArena|), Some(Left))),
      Leaf(word),
      Leaf(Token(MarkContent(Brackets), [e], [e], 3, 1, Some(|s.markArena|), Some(Right))));
  }

  lemma AppendThree(n0: seq<Node>, n1: seq<Node>, n2: seq<Node>, n3: seq<Node>, x: Node, y: Node, z: Node)
    requires n1 == n0 + [x] && n2 == n1 + [y] && n3 == n2 + [z]
    ensures n3 == n0 + [x, y, z]
  {
    assert n0 + [x] + [y] + [z] == n0 + [x, y, z];
  }

  /** In the same scenario the mark spans indices 0 to 3 and is closed
      afterwards. */
  lemma ParenthesizedWordMark(s: State, o: char, a: char, b: char, e: char, t: CharTables)
    returns (r1: State, r3: State, r4: State)
    requires WellFormed(s) && s.lastToken.None? && s.lastMark.None? && s.markStack == []
    requires o in t.markLeft && e !in t.markLeft && e in t.markRight
    ensures Punctuate(s, 0, o, PunctuationHalf, t) == Ok(r1)
    ensures WellFormed(r1) && r3 == ContentAll(r1, [a, b], 1, ContentHalf)
    ensures WellFormed(r3) && Punctuate(r3, 3, e, PunctuationHalf, t) == Ok(r4)
    ensures |r4.markArena| == |s.markArena| + 1
    ensures r4.markArena[|s.markArena|] == Mark(Brackets, 0, [o], [o], 3, [e], Some([e]))
    ensures r4.lastMark.None?
  {
    r1 := LeftBracketOpensMark(s, 0, o, PunctuationHalf, t);
    r3 := WordAfterBracket(r1, a, b);
    r4 := RightBracketClosesMark(r3, 3, e, PunctuationHalf, t);
  }

  /** The two content characters of the scenario above become one pending
      token. */
  lemma WordAfterBracket(r1: State, a: char, b: char) returns (r3: State)
    requires WellFormed(r1) && r1.lastToken.None?
    ensures WellFormed(r3) && r3 == ContentAll(r1, [a, b], 1, ContentHalf)
    ensures r3 == r1.(lastToken := Some(Token(Plain(ContentHalf), [a, b], [a, b], 1, 2, None, None)))
  {
    RunBecomesOneToken(r1, [a, b], 1, ContentHalf);
    r3 := ContentAll(r1, [a, b], 1, ContentHalf);
  }

  // ---------------------------------------------------------------------
  // Groups

  /** Opening a group under an open group and then closing it restores the
      innermost group and the group stack; the new group is recorded with
      both ends, has no children, and is the last child of the group that was
      open before it. */
  lemma OpenThenCloseGroupRestores(s: State, i: int, c: char, j: int, d: char)
    requires WellFormed(s) && s.lastGroup.Some?
    ensures var r1 := CreateNewGroup(s, i, c);
      && r1.Ok?
      && var r := FinalizeGroup(r1.value, j, d);
      && var g := |s.groupArena|;
      && r.lastGroup == s.lastGroup
      && r.groupStack == s.groupStack
      && r.groups == s.groups + [g]
      && r.groupArena[g] == Group(i, [c], [c], Some(j), Some([d]), Some([d]), [])
      && Children(r, s.lastGroup.value) == Children(s, s.lastGroup.value) + [Sub(g)]
  {
    var r1 := CreateNewGroup(s, i, c).value;
    assert r1.groupStack == s.groupStack + [s.lastGroup.value];
    assert r1.groupStack[..|r1.groupStack| - 1] == s.groupStack;
  }

  /** One quote character changes the number of open groups as follows: a
      closing quote (a right quote, or a neutral quote equal to the innermost
      group's opening) closes one group, or is UnmatchedQuote when a right
      quote finds no group; an opening quote opens one, or fails when there
      is no group at all to attach it to. */
  lemma QuoteStep(s: State, i: int, c: char, ty: CharType, t: CharTables)
    requires WellFormed(s) && Floored(s)
    requires RouteOf(c, t) in {NeutralQuote, OpenQuote, CloseQuote}
    ensures var r := Punctuate(s, i, c, ty, t);
      var closes := RouteOf(c, t) == CloseQuote || (RouteOf(c, t) == NeutralQuote && ClosesNeutral(s, c));
      && (closes && GroupDepth(s) > 0 ==> r.Ok? && GroupDepth(r.value) == GroupDepth(s) - 1 && Floored(r.value))
      && (closes && GroupDepth(s) == 0 ==> r == Err(UnmatchedQuote(c, i)))
      && (!closes && GroupDepth(s) > 0 ==> r.Ok? && GroupDepth(r.value) == GroupDepth(s) + 1 && Floored(r.value))
      && (!closes && GroupDepth(s) == 0 ==> r == Err(NoEnclosingGroup(c, i)))
  {
  }

  /** A left quote, or a neutral quote that does not match the innermost
      group's opening, finalizes the pending token and opens a new group as
      the last child of the innermost one, which is pushed. */
  lemma QuoteOpensGroup(s: State, i: int, q: char, ty: CharType, t: CharTables) returns (r: State)
    requires WellFormed(s) && s.lastGroup.Some?
    requires RouteOf(q, t) == OpenQuote || (RouteOf(q, t) == NeutralQuote && !ClosesNeutral(s, q))
    ensures Punctuate(s, i, q, ty, t) == Ok(r)
    ensures WellFormed(r) && r.lastToken.None?
    ensures r.lastGroup == Some(|s.groupArena|) && r.groupStack == s.groupStack + [s.lastGroup.value]
    ensures r.groups == s.groups + [|s.groupArena|]
    ensures |r.groupArena| == |s.groupArena| + 1 && r.groupArena[|s.groupArena|] == NewGroup(i, q)
    ensures Children(r, s.lastGroup.value) == Children(FinalizeToken(s, i), s.lastGroup.value) + [Sub(|s.groupArena|)]
    ensures forall h :: 0 <= h < |s.groupArena| && h != s.lastGroup.value ==> r.groupArena[h] == s.groupArena[h]
    ensures r.groupArena[s.lastGroup.value].(children := s.groupArena[s.lastGroup.value].children) == s.groupArena[s.lastGroup.value]
    ensures r.lastMark == s.lastMark && r.markStack == s.markStack && r.marks == s.marks && r.markArena == s.markArena
  {
    var f := FinalizeToken(s, i);
    assert f.groupArena[s.lastGroup.value].startContent == s.groupArena[s.lastGroup.value].startContent;
    r := CreateNewGroup(f, i, q).value;
  }

  /** A right quote, or a neutral quote that matches the innermost group's
      opening, finalizes the pending token into that group, records the
      group's end at `i` and reinstates the most recently pushed group, or
      leaves no group open when none was pushed. */
  lemma QuoteClosesGroup(s: State, i: int, q: char, ty: CharType, t: CharTables) returns (r: State)
    requires WellFormed(s) && s.lastGroup.Some?
    requires RouteOf(q, t) == CloseQuote || (RouteOf(q, t) == NeutralQuote && ClosesNeutral(s, q))
    ensures Punctuate(s, i, q, ty, t) == Ok(r)
    ensures WellFormed(r) && r.lastToken.None?
    ensures s.groupStack != [] ==>
      r.lastGroup == Some(s.groupStack[|s.groupStack| - 1]) && r.groupStack == s.groupStack[..|s.groupStack| - 1]
    ensures s.groupStack == [] ==> r.lastGroup.None? && r.groupStack == []
    ensures r.groups == s.groups && |r.groupArena| == |s.groupArena|
    ensures r.groupArena[s.lastGroup.value].endIndex == Some(i)
    ensures r.groupArena[s.lastGroup.value].endContent == Some([q])
    ensures r.groupArena[s.lastGroup.value].children == Children(FinalizeToken(s, i), s.lastGroup.value)
    ensures forall h :: 0 <= h < |s.groupArena| && h != s.lastGroup.value ==> r.groupArena[h] == s.groupArena[h]
    ensures r.groupArena[s.lastGroup.value] == s.groupArena[s.lastGroup.value].(
      endIndex := Some(i), endContent := Some([q]), rawEndContent := Some([q]),
      children := Children(FinalizeToken(s, i), s.lastGroup.value))
    ensures r.lastMark == s.lastMark && r.markStack == s.markStack && r.marks == s.marks && r.markArena == s.markArena
  {
    var f := FinalizeToken(s, i);
    r := FinalizeGroup(f, i, q);
  }

  /** A neutral quote toggles: on `"a"` (with any neutral quote character
      and any half-width content character) the first quote opens a group
      under the innermost one, the second, equal to that group's opening,
      closes it around the content, and the enclosing group is innermost
      again with its opening unchanged, so that a further quote opens a new
      group (QuoteOpensGroup). */
  lemma NeutralQuoteToggles(s: State, root: GroupId, i: int, q: char, x: char, t: CharTables)
    returns (r1: State, r3: State)
    requires WellFormed(s) && s.lastToken.None? && s.lastGroup == Some(root)
    requires s.groupArena[root].startContent != [q]
    requires RouteOf(q, t) == NeutralQuote
    ensures Punctuate(s, i, q, PunctuationHalf, t) == Ok(r1)
    ensures WellFormed(r1) && Punctuate(Content(r1, i + 1, x, ContentHalf), i + 2, q, PunctuationHalf, t) == Ok(r3)
    ensures |r3.groupArena| == |s.groupArena| + 1
    ensures r3.groups == s.groups + [|s.groupArena|]
    ensures r3.lastGroup == Some(root) && r3.groupStack == s.groupStack && r3.lastToken.None?
    ensures r3.groupArena[|s.groupArena|] ==
      Group(i, [q], [q], Some(i + 2), Some([q]), Some([q]), [Leaf(Token(Plain(ContentHalf), [x], [x], i + 1, 1, None, None))])
    ensures Children(r3, root) == Children(s, root) + [Sub(|s.groupArena|)]
    ensures r3.groupArena[root].startContent == s.groupArena[root].startContent
  {
    var g1 := |s.groupArena|;
    r1 := QuoteOpensGroup(s, i, q, PunctuationHalf, t);
    var r2 := Content(r1, i + 1, x, ContentHalf);
    assert r2 == CreateContent(r1, i + 1, x, ContentHalf);
    r3 := QuoteClosesGroup(r2, i + 2, q, PunctuationHalf, t);
    assert Children(FinalizeToken(r2, i + 2), g1) == [Leaf(ContentToken(i + 1, x, ContentHalf))];
  }

  /** As written, the root group is not a floor: a right quote with only the
      root open closes the root and leaves no group open, without an error;
      content after it is dropped when finalized, and a following opening
      quote fails because there is no group to attach the new one to. */
  lemma RightQuoteClosesRoot(root: Group, c: char, e: char, x: char, t: CharTables)
    requires root.children == []
    requires RouteOf(c, t) == CloseQuote && RouteOf(e, t) == OpenQuote
    ensures var r := Punctuate(Initial(root), 0, c, PunctuationHalf, t);
      && r.Ok?
      && r.value.lastGroup.None?
      && r.value.groupArena[0].endIndex == Some(0)
      && var r2 := FinalizeToken(Content(r.value, 1, x, ContentHalf), 2);
      && r2.groupArena == r.value.groupArena
      && Punctuate(r2, 2, e, PunctuationHalf, t) == Err(NoEnclosingGroup(e, 2))
  {
  }

  // ---------------------------------------------------------------------
  // Other punctuation

  /** Punctuation that is neither a bracket nor a quote finalizes the pending
      token and appends a one-character token of the character's class after
      it; marks, stacks and every other group are untouched. */
  lemma OtherPunctuationAppendsToken(s: State, i: int, c: char, ty: CharType, t: CharTables) returns (r: State)
    requires WellFormed(s) && RouteOf(c, t) == OtherPunctuation
    ensures Punctuate(s, i, c, ty, t) == Ok(r)
    ensures r.lastToken.None?
    ensures s.lastGroup.Some? ==>
      var pending := if s.lastToken.Some? then [Leaf(s.lastToken.value.(length := i - s.lastToken.value.index))] else [];
      Children(r, s.lastGroup.value) == Children(s, s.lastGroup.value) + pending + [Leaf(ContentToken(i, c, ty))]
    ensures forall h :: 0 <= h < |s.groupArena| && Some(h) != s.lastGroup ==> r.groupArena[h] == s.groupArena[h]
    ensures s.lastGroup.Some? ==>
      r.groupArena[s.lastGroup.value].(children := s.groupArena[s.lastGroup.value].children) == s.groupArena[s.lastGroup.value]
    ensures r.(groupArena := s.groupArena, lastToken := s.lastToken) == s
  {
    var f := FinalizeToken(s, i);
    r := AddNormalPunctuation(f, i, c, ty);
  }

  // ---------------------------------------------------------------------
  // Stack floors

  lemma ContentKeepsFloored(s: State, i: int, c: char, ty: CharType)
    requires WellFormed(s) && Floored(s)
    ensures Floored(Content(s, i, c, ty))
  {
  }

  // ---------------------------------------------------------------------
  // Shorthand

  /** Scenario "don't": with letters classified as half-width content and the
      apostrophe a shorthand character, the apostrophe at index 3 after the
      pending "don" belongs to the word. */
  lemma ApostropheInsideWord(p: ParseStatus, t: CharTables, classify: Option<char> -> CharType)
    requires p.lastGroup.Some? ==> p.lastGroup.value < |p.groupArena|
    requires p.lastToken == Some(Token(Plain(ContentHalf), "don", "don", 0, 3, None, None))
    requires '\'' in t.shorthand && classify(Some('t')) == ContentHalf
    ensures p.IsShorthand("don't", 3, '\'', t, classify)
  {
  }
}

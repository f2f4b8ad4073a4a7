/** The mutable parse status and the per-character operations that update it
    in place. Each method is proved to leave the status equal to the
    corresponding function of module Transitions applied to the status it
    found. */
module Parser {
  import opened Tokens
  import opened Transitions

  /** The status at the start of a parse: a root group installed as the
      innermost group, nothing pending, no marks, empty stacks. */
  function Initial(root: Group): (s: State)
    requires root.children == []
    ensures WellFormed(s) && Floored(s)
    ensures s.lastGroup == Some(0) && s.groupArena == [root]
    ensures MarkDepth(s) == 0 && GroupDepth(s) == 1
  {
    State(None, Some(0), None, [], [], [], [], [], [root])
  }

  class ParseStatus {
    var lastToken: Option<Token>
    var lastGroup: Option<GroupId>
    var lastMark: Option<MarkId>
    var markStack: seq<MarkId>
    var groupStack: seq<GroupId>
    var marks: seq<MarkId>
    var groups: seq<GroupId>
    var markArena: seq<Mark>
    var groupArena: seq<Group>

    function Snapshot(): State
      reads this
    {
      State(lastToken, lastGroup, lastMark, markStack, groupStack, marks, groups, markArena, groupArena)
    }

    ghost predicate Valid()
      reads this
    {
      WellFormed(Snapshot())
    }

    /** A fresh status for one parse, seeded with an empty root group. */
    constructor (root: Group)
      requires root.children == []
      ensures Valid() && Snapshot() == Initial(root)
    {
      lastToken, lastGroup, lastMark := None, Some(0), None;
      markStack, groupStack, marks, groups := [], [], [], [];
      markArena, groupArena := [], [root];
    }

    /** Appends a leaf to the innermost open group, if there is one. */
    method PushLeaf(t: Token)
      requires Valid()
      requires t.mark.Some? ==> t.mark.value < |markArena|
      modifies this
      ensures Valid()
      ensures Snapshot() == AddLeaf(old(Snapshot()), t)
    {
      if lastGroup.Some? {
        var g := lastGroup.value;
        groupArena := groupArena[g := groupArena[g].(children := groupArena[g].children + [Leaf(t)])];
      }
    }

    method HandlePunctuation(i: int, c: char, ty: CharType, tables: CharTables) returns (err: Option<ParseError>)
      requires Valid()
      modifies this
      ensures Valid()
      ensures match Punctuate(old(Snapshot()), i, c, ty, tables)
        case Ok(q) => err.None? && Snapshot() == q
        case Err(e) => err == Some(e) && Snapshot() == FinalizeToken(old(Snapshot()), i)
    {
      err := None;
      FinalizeCurrentToken(i);
      match RouteOf(c, tables)
      case OpenBracket =>
        CreateBracket(i, c, Brackets);
        AppendBracket(i, c, Left);
      case CloseBracket =>
        if lastMark.None? {
          return Some(UnmatchedBracket(c, i));
        }
        AppendBracket(i, c, Right);
        FinalizeCurrentMark(i, c);
      case NeutralQuote =>
        if lastGroup.Some? && [c] == groupArena[lastGroup.value].startContent {
          FinalizeCurrentGroup(i, c);
        } else {
          err := CreateNewGroup(i, c);
        }
      case OpenQuote =>
        err := CreateNewGroup(i, c);
      case CloseQuote =>
        if lastGroup.None? {
          return Some(UnmatchedQuote(c, i));
        }
        FinalizeCurrentGroup(i, c);
      case OtherPunctuation =>
        AddNormalPunctuation(i, c, ty);
    }

    method HandleContent(i: int, c: char, ty: CharType)
      requires Valid()
      modifies this
      ensures Valid()
      ensures Snapshot() == Content(old(Snapshot()), i, c, ty)
    {
      if lastToken.Some? {
        if ty != Unknown && lastToken.value.kind != Plain(ty) {
          FinalizeCurrentToken(i);
          CreateContent(i, c, ty);
        } else {
          AppendContent(c);
        }
      } else {
        CreateContent(i, c, ty);
      }
    }

    method FinalizeCurrentToken(index: int)
      requires Valid()
      modifies this
      ensures Valid()
      ensures Snapshot() == FinalizeToken(old(Snapshot()), index)
    {
      if lastToken.Some? {
        lastToken := Some(lastToken.value.(length := index - lastToken.value.index));
        PushLeaf(lastToken.value);
        lastToken := None;
      }
    }

    method FinalizeCurrentMark(index: int, c: char)
      requires Valid()
      modifies this
      ensures Valid()
      ensures Snapshot() == FinalizeMark(old(Snapshot()), index, c)
    {
      if lastMark.None? {
        return;
      }
      var m := lastMark.value;
      markArena := markArena[m := markArena[m].(endIndex := index, endContent := [c], rawEndContent := Some([c]))];
      if |markStack| > 0 {
        lastMark := Some(markStack[|markStack| - 1]);
        markStack := markStack[..|markStack| - 1];
      } else {
        lastMark := None;
      }
    }

    method FinalizeCurrentGroup(index: int, c: char)
      requires Valid()
      modifies this
      ensures Valid()
      ensures Snapshot() == FinalizeGroup(old(Snapshot()), index, c)
    {
      if lastGroup.Some? {
        var g := lastGroup.value;
        groupArena := groupArena[g := groupArena[g].(endIndex := Some(index), endContent := Some([c]), rawEndContent := Some([c]))];
      }
      if |groupStack| > 0 {
        lastGroup := Some(groupStack[|groupStack| - 1]);
        groupStack := groupStack[..|groupStack| - 1];
      } else {
        lastGroup := None;
      }
    }

    method CreateBracket(index: int, c: char, kind: MarkType)
      requires Valid()
      modifies this
      ensures Valid()
      ensures Snapshot() == Transitions.CreateBracket(old(Snapshot()), index, c, kind)
    {
      if lastMark.Some? {
        markStack := markStack + [lastMark.value];
        lastMark := None;
      }
      var id := |markArena|;
      markArena := markArena + [Mark(kind, index, [c], [c], -1, "", None)];
      marks := marks + [id];
      lastMark := Some(id);
    }

    method AppendBracket(index: int, c: char, side: MarkSide)
      requires Valid()
      modifies this
      ensures Valid()
      ensures Snapshot() == Transitions.AppendBracket(old(Snapshot()), index, c, side)
    {
      var token := Token(MarkContent(Brackets), [c], [c], index, 1, lastMark, Some(side));
      PushLeaf(token);
      lastToken := None;
    }

    method AppendHyperMark(index: int, m: MarkId, content: string, side: MarkSide)
      requires Valid()
      requires m < |markArena|
      modifies this
      ensures Valid()
      ensures Snapshot() == Transitions.AppendHyperMark(old(Snapshot()), index, m, content, side)
    {
      var token := Token(MarkContent(markArena[m].kind), content, content, index, |content|, Some(m), Some(side));
      PushLeaf(token);
      lastToken := None;
    }

    method AppendHyperContent(index: int, content: string)
      requires Valid()
      modifies this
      ensures Valid()
      ensures Snapshot() == Transitions.AppendHyperContent(old(Snapshot()), index, content)
    {
      lastToken := Some(Token(HyperContent, content, content, index, |content|, None, None));
      PushLeaf(lastToken.value);
      lastToken := None;
    }

    method CreateNewGroup(index: int, c: char) returns (err: Option<ParseError>)
      requires Valid()
      modifies this
      ensures Valid()
      ensures match Transitions.CreateNewGroup(old(Snapshot()), index, c)
        case Ok(q) => err.None? && Snapshot() == q
        case Err(e) => err == Some(e) && Snapshot() == old(Snapshot())
    {
      if lastGroup.Some? {
        groupStack := groupStack + [lastGroup.value];
      }
      if groupStack == [] {
        // no group to attach the new one to
        return Some(NoEnclosingGroup(c, index));
      }
      var g := |groupArena|;
      groupArena := groupArena + [NewGroup(index, c)];
      var parent := groupStack[|groupStack| - 1];
      groupArena := groupArena[parent := groupArena[parent].(children := groupArena[parent].children + [Sub(g)])];
      lastGroup := Some(g);
      groups := groups + [g];
      return None;
    }

    method CreateContent(index: int, c: char, ty: CharType)
      requires Valid()
      modifies this
      ensures Valid()
      ensures Snapshot() == Transitions.CreateContent(old(Snapshot()), index, c, ty)
    {
      lastToken := Some(Token(Plain(ty), [c], [c], index, 1, None, None));
    }

    method AppendContent(c: char)
      requires Valid()
      modifies this
      ensures Valid()
      ensures Snapshot() == Transitions.AppendContent(old(Snapshot()), c)
    {
      if lastToken.Some? {
        var content := lastToken.value.content + [c];
        lastToken := Some(lastToken.value.(content := content, raw := content, length := lastToken.value.length + 1));
      }
    }

    method AddNormalPunctuation(index: int, c: char, ty: CharType)
      requires Valid()
      modifies this
      ensures Valid()
      ensures Snapshot() == Transitions.AddNormalPunctuation(old(Snapshot()), index, c, ty)
    {
      lastToken := Some(Token(Plain(ty), [c], [c], index, 1, None, None));
      PushLeaf(lastToken.value);
      lastToken := None;
    }

    /** Whether the apostrophe-like `c` at `index` belongs to the word before
        it rather than delimiting a quote. */
    function IsShorthand(str: string, index: int, c: char, tables: CharTables,
                         classify: Option<char> -> CharType): (r: bool)
      reads this
      requires lastGroup.Some? ==> lastGroup.value < |groupArena|
      ensures r ==> c in tables.shorthand
      ensures r ==> lastToken.Some? && lastToken.value.kind == Plain(ContentHalf)
      ensures r ==> classify(CharAt(str, index + 1)) == ContentHalf || classify(CharAt(str, index + 1)) == Space
      ensures c in tables.shorthand && lastToken.Some? && lastToken.value.kind == Plain(ContentHalf) ==>
        && (classify(CharAt(str, index + 1)) == ContentHalf ==> r)
        && (classify(CharAt(str, index + 1)) == Space ==>
              (r <==> lastGroup.None? || !PairedWith(groupArena[lastGroup.value], c, tables)))
    {
      if c !in tables.shorthand then false
      else if lastToken.None? || lastToken.value.kind != Plain(ContentHalf) then false
      else
        var next := classify(CharAt(str, index + 1));
        if next == ContentHalf then true
        else if next == Space then
          lastGroup.None? || !PairedWith(groupArena[lastGroup.value], c, tables)
        else false
    }
  }

  /** The group was opened by the quote character that `c` is paired with. */
  predicate PairedWith(g: Group, c: char, tables: CharTables)
  {
    c in tables.shorthandPair && g.startContent == tables.shorthandPair[c]
  }
}

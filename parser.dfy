/**
 * `ReadFrom` of parse.go: the loop that reads a key, then a value, and
 * builds the tree on a stack of open nodes.
 *
 * The stack holds the root at the bottom and, above it, each node whose
 * brace block is still open, the last one being the node whose key was
 * just read. Here each stack entry is a tree value holding the children
 * completed so far; a child joins its parent's list when it is popped, so
 * `Close(frames)`, which pops everything, is the tree the source has built
 * at that moment. `last` is the depth of the entry whose last child is the
 * leaf completed most recently, if no `}` or removal came after it.
 */
module Parser {
  import opened Wrappers
  import opened Text
  import opened Trees
  import opened Lexer
  import opened Writer

  /** The errors `ReadFrom` returns: `io.EOF`, and the five messages it makes itself. */
  datatype ParseError =
    | EOF
    | UnexpectedOpen               // "Unexpected '{': expecting '}' or a key"
    | UnexpectedCloseKey           // "Unexpected '}': expecting a key"
    | UnexpectedConditionalKey     // "Unexpected conditional: expecting a key"
    | UnexpectedCloseValue         // "Unexpected '}': expecting '{' or a value"
    | UnexpectedConditionalValue   // "Unexpected conditional: expecting '{' or a value"

  /** The tree as `ReadFrom` leaves it, and its error, if any. */
  datatype Outcome = Outcome(tree: Tree, err: Option<ParseError>)

  /** `parent` with `kid` as a new last child. */
  function AddKid(parent: Tree, kid: Tree): (r: Tree)
    ensures r.name == parent.name && r.value == parent.value
    ensures |r.kids| == |parent.kids| + 1 && r.kids[..|parent.kids|] == parent.kids && r.kids[|parent.kids|] == kid
  {
    parent.(kids := parent.kids + [kid])
  }

  /** `pop` on the stack of open nodes: the top joins the children of the entry below it. */
  function PopFrames(frames: seq<Tree>): (r: seq<Tree>)
    requires |frames| >= 2
    ensures |r| == |frames| - 1 && r[..|r| - 1] == frames[..|frames| - 2]
    ensures r[|r| - 1] == AddKid(frames[|frames| - 2], frames[|frames| - 1])
    ensures SameRoot(r, frames)
  {
    frames[..|frames| - 2] + [AddKid(frames[|frames| - 2], frames[|frames| - 1])]
  }

  /**
   * The tree the stack stands for: every open node closed into the one below
   * it. It is the root entry, with its name and value, and with the children
   * it holds followed by at most one more: the open node above it, closed.
   */
  function Close(frames: seq<Tree>): (r: Tree)
    requires |frames| >= 1
    ensures SameRoot([r], frames)
    ensures |frames| == 1 ==> r == frames[0]
    ensures |r.kids| == |frames[0].kids| + (if |frames| == 1 then 0 else 1) && r.kids[..|frames[0].kids|] == frames[0].kids
    decreases |frames|
  {
    if |frames| == 1 then frames[0] else Close(PopFrames(frames))
  }

  /** The bottom entries of two stacks have the same name and value. */
  predicate SameRoot(a: seq<Tree>, b: seq<Tree>) {
    |a| >= 1 && |b| >= 1 && a[0].name == b[0].name && a[0].value == b[0].value
  }

  /** `SetValueString` on the node on top of the stack. */
  function SetTop(frames: seq<Tree>, v: string): (r: seq<Tree>)
    requires |frames| >= 1
    ensures |r| == |frames| && r[..|r| - 1] == frames[..|frames| - 1]
    ensures r[|r| - 1] == frames[|frames| - 1].(value := v)
  {
    frames[..|frames| - 1] + [frames[|frames| - 1].(value := v)]
  }

  /** `Remove` of the leaf `last`: the last child of the entry at depth `d` is dropped. */
  function DropLast(frames: seq<Tree>, d: nat): (r: seq<Tree>)
    requires d < |frames| && frames[d].kids != []
    ensures |r| == |frames| && forall i :: 0 <= i < |r| && i != d ==> r[i] == frames[i]
    ensures r[d] == frames[d].(kids := RemoveAt(frames[d].kids, |frames[d].kids| - 1))
    ensures SameRoot(r, frames)
  {
    var kids := frames[d].kids;
    assert kids[..|kids| - 1] == RemoveAt(kids, |kids| - 1);
    frames[d := frames[d].(kids := kids[..|kids| - 1])]
  }

  /** What `last` points at: the last child of the entry at its depth, and that child is a leaf. */
  predicate LastOK(frames: seq<Tree>, last: Option<nat>) {
    last.Some? ==>
      && last.value < |frames|
      && frames[last.value].kids != []
      && frames[last.value].kids[|frames[last.value].kids| - 1].kids == []
  }

  /** `consumeSpaces` followed by `readString`: the next token, or `None` at the end of the input. */
  function Next(s: string): (r: Option<Lexed>)
    ensures r.Some? ==> |r.value.rest| < |s|
  {
    var k := SpaceRun(s);
    if k == |s| then None else Lex(s[k..])
  }

  /** Whether the loop of `ReadFrom` expects a key or a value next. */
  datatype Mode = Key | Val

  /** What the stack and `last` must satisfy in each mode; a value is expected for the leaf-to-be on top. */
  predicate Ready(mode: Mode, frames: seq<Tree>, last: Option<nat>) {
    && |frames| >= 1 && LastOK(frames, last)
    && (mode == Val ==> |frames| >= 2 && frames[|frames| - 1].kids == [])
  }

  /** The effect of one token: the loop returns, or goes on in a mode with a new stack and `last`. */
  datatype Step = Done(outcome: Outcome) | Go(mode: Mode, frames: seq<Tree>, last: Option<nat>)

  /**
   * End of input where a key is expected: `pop`, and success exactly when
   * what was popped is the root; otherwise `io.EOF`.
   */
  function EndOfInput(frames: seq<Tree>): (o: Outcome)
    requires |frames| >= 1
    ensures o.err.None? <==> |frames| == 1
    ensures |frames| > 1 ==> o.err == Some(EOF)
    ensures o.tree == Close(frames)
  {
    if |frames| == 1 then Outcome(frames[0], None) else Outcome(Close(frames), Some(EOF))
  }

  /**
   * A token where a key is expected. A plain token is a key: a new last
   * child of the top entry, pushed. A `{` is an error; a `}` pops, and
   * popping the root is an error; a conditional needs a leaf in `last`,
   * keeps it for `[$WIN32]` and removes it otherwise.
   */
  function OnKey(key: Token, frames: seq<Tree>, last: Option<nat>): (r: Step)
    requires Ready(Key, frames, last)
    ensures r.Go? ==> Ready(r.mode, r.frames, r.last) && SameRoot(r.frames, frames)
    ensures r.Go? && r.mode == Val <==> !key.special
    ensures r.Done? ==> r.outcome.err.Some? && r.outcome.tree == Close(frames)
  {
    if !key.special then Go(Val, frames + [Tree(key.text, "", [])], last)
    else OnSpecialKey(key.text, frames, last)
  }

  /** `OnKey` on a brace or a conditional, whose text is `text`: the loop goes on where a key is expected, or ends in an error. */
  function OnSpecialKey(text: string, frames: seq<Tree>, last: Option<nat>): (r: Step)
    requires Ready(Key, frames, last)
    ensures r.Go? ==> r.mode == Key && Ready(Key, r.frames, r.last) && SameRoot(r.frames, frames)
    ensures r.Done? ==> r.outcome.err.Some? && r.outcome.tree == Close(frames)
  {
    if text == "{" then Done(Outcome(Close(frames), Some(UnexpectedOpen)))
    else if text == "}" then
      if |frames| == 1 then Done(Outcome(frames[0], Some(UnexpectedCloseKey)))
      else Go(Key, PopFrames(frames), None)
    else if last.None? then Done(Outcome(Close(frames), Some(UnexpectedConditionalKey)))
    else if text == "[$WIN32]" then Go(Key, frames, last)
    else Go(Key, DropLast(frames, last.value), None)
  }

  /**
   * A token where a value is expected for the node on top of the stack. A
   * plain token is its value: the node is popped and becomes `last`. A `{`
   * leaves it open on the stack. A `}` and a conditional are errors.
   */
  function OnValue(v: Token, frames: seq<Tree>, last: Option<nat>): (r: Step)
    requires Ready(Val, frames, last)
    ensures r.Go? ==> r.mode == Key && Ready(Key, r.frames, r.last) && SameRoot(r.frames, frames)
    ensures r.Go? <==> !v.special || v.text == "{"
    ensures r.Done? ==> r.outcome.err.Some? && r.outcome.tree == Close(frames)
  {
    if !v.special then Go(Key, PopFrames(SetTop(frames, v.text)), Some(|frames| - 2))
    else if v.text == "{" then Go(Key, frames, last)
    else if v.text == "}" then Done(Outcome(Close(frames), Some(UnexpectedCloseValue)))
    else Done(Outcome(Close(frames), Some(UnexpectedConditionalValue)))
  }

  /** The end of the input: see `EndOfInput` where a key is expected; where a value is, always `io.EOF`. */
  function AtEnd(mode: Mode, frames: seq<Tree>): (o: Outcome)
    requires |frames| >= 1
    ensures o.tree == Close(frames)
    ensures o.err.None? <==> mode == Key && |frames| == 1
  {
    if mode == Key then EndOfInput(frames) else Outcome(Close(frames), Some(EOF))
  }

  /**
   * The loop of `ReadFrom` on the unread input `s`, one token at a time. The
   * tree it ends with, whatever the outcome, has the root's name and value.
   */
  function Run(s: string, mode: Mode, frames: seq<Tree>, last: Option<nat>): (o: Outcome)
    requires Ready(mode, frames, last)
    ensures SameRoot([o.tree], frames)
    decreases |s|
  {
    match Next(s)
    case None => AtEnd(mode, frames)
    case Some(l) =>
      match (if mode == Key then OnKey(l.token, frames, last) else OnValue(l.token, frames, last))
      case Done(o) => o
      case Go(m, f, la) => Run(l.rest, m, f, la)
  }

  /** `root.ReadFrom(src)`: the keys read become new children of `root`, after those it has. */
  function Parse(root: Tree, src: string): (o: Outcome)
    ensures o.tree.name == root.name && o.tree.value == root.value
  {
    Run(src, Key, [root], None)
  }

  /** The `stack` type of parse.go, holding open nodes. */
  class Stack {
    var frames: seq<Tree>

    constructor (root: Tree)
      ensures frames == [root]
    {
      frames := [root];
    }

    /** `push(peek().NewSubKey(key))`: a new node, empty-valued, on top; it joins the top's children when popped. */
    method Push(t: Tree)
      modifies this
      ensures frames == old(frames) + [t]
    {
      frames := frames + [t];
    }

    /** `pop`: the top entry, which joins the children of the entry below it. */
    method Pop() returns (top: Tree)
      requires |frames| >= 1
      modifies this
      ensures top == old(frames[|frames| - 1])
      ensures |old(frames)| == 1 ==> frames == []
      ensures |old(frames)| >= 2 ==> frames == PopFrames(old(frames))
    {
      top := frames[|frames| - 1];
      if |frames| == 1 {
        frames := [];
      } else {
        frames := PopFrames(frames);
      }
    }

    /** `SetValueString` on the top entry. */
    method SetTopValue(v: string)
      requires |frames| >= 1
      modifies this
      ensures frames == SetTop(old(frames), v)
    {
      frames := SetTop(frames, v);
    }

    /** `last.Remove()`, the leaf being the last child of the entry at depth `d`. */
    method RemoveLast(d: nat)
      requires d < |frames| && frames[d].kids != []
      modifies this
      ensures frames == DropLast(old(frames), d)
    {
      frames := DropLast(frames, d);
    }
  }

  /** `consumeSpaces` and then `readString`, each failing at the end of the input. */
  method NextToken(rd: Reader) returns (tok: Option<Token>)
    requires rd.Valid()
    modifies rd`pos
    ensures rd.Valid()
    ensures Yields(Next(old(rd.Rest())), tok, rd.Rest())
  {
    var ok := ConsumeSpaces(rd);
    if !ok {
      return None;
    }
    tok := ReadString(rd);
  }

  /** The outcome of a step as the methods report it agrees with `r`. */
  ghost predicate Follows(r: Step, done: Option<Outcome>, mode: Mode, frames: seq<Tree>, last: Option<nat>) {
    match r
    case Done(o) => done == Some(o)
    case Go(m, f, l) => done.None? && mode == m && frames == f && last == l
  }

  /** `ReadFrom`, statement by statement, is `Parse`. */
  method ReadFrom(root: Tree, src: string) returns (o: Outcome)
    ensures o == Parse(root, src)
  {
    var rd := new Reader(src);
    var st := new Stack(root);
    var last: Option<nat> := None;
    while true
      invariant rd.Valid() && Ready(Key, st.frames, last)
      invariant Run(rd.Rest(), Key, st.frames, last) == Parse(root, src)
      decreases |rd.src| - rd.pos
    {
      ghost var s, frames0, last0 := rd.Rest(), st.frames, last;
      var key := NextToken(rd);
      if key.None? {
        // `s.pop() == kv`: the stack is left empty exactly when the root was popped
        var top := st.Pop();
        if st.frames == [] {
          return Outcome(top, None);
        }
        return Outcome(Close(st.frames), Some(EOF));
      }
      var done, mode;
      done, mode, last := OnKeyToken(st, key.value, last);
      assert Run(s, Key, frames0, last0) == if done.Some? then done.value else Run(rd.Rest(), mode, st.frames, last);
      if done.Some? {
        return done.value;
      }
      if mode == Key {
        continue;
      }
      ghost var s1, frames1, last1 := rd.Rest(), st.frames, last;
      var value := NextToken(rd);
      if value.None? {
        return Outcome(Close(st.frames), Some(EOF));
      }
      done, last := OnValueToken(st, value.value, last);
      assert Run(s1, Val, frames1, last1) == if done.Some? then done.value else Run(rd.Rest(), Key, st.frames, last);
      if done.Some? {
        return done.value;
      }
    }
  }

  /** The part of the loop body of `ReadFrom` that handles a key token. */
  method OnKeyToken(st: Stack, key: Token, last: Option<nat>) returns (done: Option<Outcome>, mode: Mode, last': Option<nat>)
    requires Ready(Key, st.frames, last)
    modifies st
    ensures Follows(OnKey(key, old(st.frames), last), done, mode, st.frames, last')
  {
    mode := Key;
    if key.special {
      if key.text == "{" {
        return Some(Outcome(Close(st.frames), Some(UnexpectedOpen))), mode, last;
      } else if key.text == "}" {
        var top := st.Pop();
        if st.frames == [] {
          return Some(Outcome(top, Some(UnexpectedCloseKey))), mode, None;
        }
        return None, mode, None;
      } else {
        if last.None? {
          return Some(Outcome(Close(st.frames), Some(UnexpectedConditionalKey))), mode, last;
        }
        if key.text == "[$WIN32]" {
          return None, mode, last;
        }
        st.RemoveLast(last.value);
        return None, mode, None;
      }
    }
    st.Push(Tree(key.text, "", []));
    return None, Val, last;
  }

  /** The part of the loop body of `ReadFrom` that handles a value token. */
  method OnValueToken(st: Stack, v: Token, last: Option<nat>) returns (done: Option<Outcome>, last': Option<nat>)
    requires Ready(Val, st.frames, last)
    modifies st
    ensures Follows(OnValue(v, old(st.frames), last), done, Key, st.frames, last')
  {
    if v.special {
      if v.text == "{" {
        return None, last;
      } else if v.text == "}" {
        return Some(Outcome(Close(st.frames), Some(UnexpectedCloseValue))), last;
      } else {
        return Some(Outcome(Close(st.frames), Some(UnexpectedConditionalValue))), last;
      }
    }
    // the value is set before the pop, since the popped entry joins its parent
    st.SetTopValue(v.text);
    var _ := st.Pop();
    return None, Some(|st.frames| - 1);
  }
}

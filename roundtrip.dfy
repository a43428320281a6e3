/**
 * Reading back what `WriteTo` writes: `ReadFrom` rebuilds the names, the
 * leaf values and the shape of the tree written, appended to the children
 * the receiving root already has. A node with children comes back with an
 * empty value, since its value is not written (`Canon`).
 */
module RoundTrip {
  import opened Wrappers
  import opened Text
  import opened Trees
  import opened Lexer
  import opened Writer
  import opened Parser

  predicate AllSpaces(sp: string) {
    forall i :: 0 <= i < |sp| ==> IsSpace(sp[i])
  }

  /** The top entry of the stack with `cs` appended to its children. */
  function AttachAll(frames: seq<Tree>, cs: seq<Tree>): (r: seq<Tree>)
    requires |frames| >= 1
    ensures |r| == |frames| && r[..|r| - 1] == frames[..|frames| - 1]
    ensures r[|r| - 1] == frames[|frames| - 1].(kids := frames[|frames| - 1].kids + cs)
  {
    frames[..|frames| - 1] + [frames[|frames| - 1].(kids := frames[|frames| - 1].kids + cs)]
  }

  /** `last` after reading the node `t` as a child of the top of a stack of height `n`. */
  function After(t: Tree, n: nat): Option<nat>
    requires n >= 1
  {
    if t.kids == [] then Some(n - 1) else None
  }

  /** `last` after reading the nodes `ts` there. */
  function AfterAll(ts: seq<Tree>, n: nat, last: Option<nat>): Option<nat>
    requires n >= 1
  {
    if ts == [] then last else After(ts[|ts| - 1], n)
  }

  /** Spaces in front change nothing about the next token. */
  lemma NextSpaces(sp: string, s: string)
    requires AllSpaces(sp)
    ensures Next(sp + s) == Next(s)
  {
    var k := SpaceRun(s);
    SpaceRunAt(sp + s, |sp| + k);
    assert (sp + s)[|sp| + k..] == s[k..];
  }

  /** Spaces in front change nothing about the rest of the parse. */
  lemma RunSpaces(sp: string, s: string, mode: Mode, frames: seq<Tree>, last: Option<nat>)
    requires AllSpaces(sp) && Ready(mode, frames, last)
    ensures Run(sp + s, mode, frames, last) == Run(s, mode, frames, last)
  {
    NextSpaces(sp, s);
  }

  /** After spaces, a quoted and escaped string is read back as a plain token. */
  lemma NextQuoted(sp: string, x: string, rest: string)
    requires AllSpaces(sp)
    ensures Next(sp + Quoted(x) + rest) == Some(Lexed(Token(x, false), rest))
  {
    assert sp + Quoted(x) + rest == sp + (Quoted(x) + rest);
    NextSpaces(sp, Quoted(x) + rest);
    SpaceRunAt(Quoted(x) + rest, 0);
    LexQuoted(x, rest);
  }

  /** After spaces, a brace is read as a special token. */
  lemma NextBrace(sp: string, c: char, rest: string)
    requires AllSpaces(sp) && (c == '{' || c == '}')
    ensures Next(sp + [c] + rest) == Some(Lexed(Token([c], true), rest))
  {
    assert sp + [c] + rest == sp + ([c] + rest);
    NextSpaces(sp, [c] + rest);
    SpaceRunAt([c] + rest, 0);
    assert ([c] + rest)[1..] == rest;
  }

  /** Where a key is expected, a plain token is pushed as a new node. */
  lemma KeyPlain(s: string, frames: seq<Tree>, last: Option<nat>, x: string, rest: string)
    requires Ready(Key, frames, last)
    requires Next(s) == Some(Lexed(Token(x, false), rest))
    ensures Run(s, Key, frames, last) == Run(rest, Val, frames + [Tree(x, "", [])], last)
  {
  }

  /** Where a value is expected, a plain token completes the leaf on top. */
  lemma ValuePlain(s: string, frames: seq<Tree>, last: Option<nat>, x: string, rest: string)
    requires Ready(Val, frames, last)
    requires Next(s) == Some(Lexed(Token(x, false), rest))
    ensures Run(s, Val, frames, last) == Run(rest, Key, PopFrames(SetTop(frames, x)), Some(|frames| - 2))
  {
  }

  /** Where a value is expected, `{` leaves the node open. */
  lemma ValueOpen(s: string, frames: seq<Tree>, last: Option<nat>, rest: string)
    requires Ready(Val, frames, last)
    requires Next(s) == Some(Lexed(Token("{", true), rest))
    ensures Run(s, Val, frames, last) == Run(rest, Key, frames, last)
  {
  }

  /** Where a key is expected, `}` closes the node on top. */
  lemma KeyClose(s: string, frames: seq<Tree>, last: Option<nat>, rest: string)
    requires Ready(Key, frames, last) && |frames| >= 2
    requires Next(s) == Some(Lexed(Token("}", true), rest))
    ensures Run(s, Key, frames, last) == Run(rest, Key, PopFrames(frames), None)
  {
  }

  lemma TabsAreSpaces(d: nat)
    ensures AllSpaces(Tabs(d))
  {
  }

  lemma SetTopPushed(frames: seq<Tree>, n: Tree, v: string)
    ensures SetTop(frames + [n], v) == frames + [n.(value := v)]
  {
    assert (frames + [n])[..|frames|] == frames;
  }

  /** The written leaf, split where the reader splits it. */
  lemma LeafText(t: Tree, d: nat, rest: string)
    requires t.kids == []
    ensures WriteNode(t, d) + rest == Tabs(d) + Quoted(t.name) + (" " + Quoted(t.value) + ("\n" + rest))
  {
    var a, b := Tabs(d) + Quoted(t.name), Quoted(t.value);
    assert WriteNode(t, d) == a + " " + (b + "\n");
    calc {
      a + " " + (b + "\n") + rest;
      a + (" " + b + ("\n" + rest));
    }
  }

  /**
   * How written text splits where the reader splits it: a node with children
   * (name text `a`, children text `w`, tabs `tb`) into its tokens, and a list
   * (first node `a`, the others `w`) into its first node and the rest.
   */
  lemma Layout(a: string, w: string, tb: string, rest: string)
    ensures a + " " + ("{\n" + w + tb + "}\n") + rest == a + (" " + "{" + ("\n" + (w + (tb + "}" + ("\n" + rest)))))
    ensures a + w + rest == a + (w + rest)
  {
    var x := "{\n" + w + tb + "}\n";
    calc {
      x + rest;
      "{\n" + (w + (tb + ("}\n" + rest)));
      { assert "}\n" + rest == "}" + ("\n" + rest); }
      "{\n" + (w + (tb + "}" + ("\n" + rest)));
      { assert "{\n" + w == "{" + ("\n" + w); }
      "{" + ("\n" + (w + (tb + "}" + ("\n" + rest))));
    }
  }

  /** The written node with children, split where the reader splits it. */
  lemma BlockText(t: Tree, d: nat, rest: string)
    requires t.kids != []
    ensures WriteNode(t, d) + rest
         == Tabs(d) + Quoted(t.name) + (" " + "{" + ("\n" + (WriteNodes(t.kids, d + 1) + Closing(d, rest))))
  {
    var a, w, tb := Tabs(d) + Quoted(t.name), WriteNodes(t.kids, d + 1), Tabs(d);
    var x := "{\n" + w + tb + "}\n";
    assert WriteNode(t, d) == a + " " + x;
    Layout(a, w, tb, rest);
  }

  lemma AttachPushed(frames: seq<Tree>, n: Tree, cs: seq<Tree>)
    ensures AttachAll(frames + [n], cs) == frames + [n.(kids := n.kids + cs)]
  {
    assert (frames + [n])[..|frames|] == frames;
  }

  lemma CanonBlock(t: Tree)
    requires t.kids != []
    ensures Canon(t) == Tree(t.name, "", [] + CanonSeq(t.kids))
  {
    assert [] + CanonSeq(t.kids) == Canon(t).kids;
  }

  /** A key token, a value token and spaces complete a leaf as the new last child of the top entry. */
  lemma LeafSteps(s: string, r1: string, r2: string, rest: string, frames: seq<Tree>, last: Option<nat>, t: Tree)
    requires Ready(Key, frames, last) && t.kids == []
    requires Next(s) == Some(Lexed(Token(t.name, false), r1))
    requires Next(r1) == Some(Lexed(Token(t.value, false), r2))
    requires r2 == "\n" + rest
    ensures LastOK(PopFrames(frames + [t]), Some(|frames| - 1))
    ensures Run(s, Key, frames, last) == Run(rest, Key, PopFrames(frames + [t]), Some(|frames| - 1))
  {
    KeyPlain(s, frames, last, t.name, r1);
    LeafLine(r1, frames, last, t, rest);
  }

  /** The value token of a leaf and the end of its line. */
  lemma LeafLine(s: string, frames: seq<Tree>, last: Option<nat>, t: Tree, rest: string)
    requires Ready(Key, frames, last) && t.kids == []
    requires Next(s) == Some(Lexed(Token(t.value, false), "\n" + rest))
    ensures LastOK(PopFrames(frames + [t]), Some(|frames| - 1))
    ensures Run(s, Val, frames + [Tree(t.name, "", [])], last) == Run(rest, Key, PopFrames(frames + [t]), Some(|frames| - 1))
  {
    LeafValue(s, frames, last, t, "\n" + rest);
    RunNewline(rest, PopFrames(frames + [t]), Some(|frames| - 1));
  }

  /** A line break where a key is expected changes nothing. */
  lemma RunNewline(rest: string, frames: seq<Tree>, last: Option<nat>)
    requires Ready(Key, frames, last)
    ensures Run("\n" + rest, Key, frames, last) == Run(rest, Key, frames, last)
  {
    assert IsSpace("\n"[0]);
    RunSpaces("\n", rest, Key, frames, last);
  }

  /** The value token of a leaf pops it, complete, into the entry below. */
  lemma LeafValue(s: string, frames: seq<Tree>, last: Option<nat>, t: Tree, rest: string)
    requires Ready(Key, frames, last) && t.kids == []
    requires Next(s) == Some(Lexed(Token(t.value, false), rest))
    ensures LastOK(PopFrames(frames + [t]), Some(|frames| - 1))
    ensures Run(s, Val, frames + [Tree(t.name, "", [])], last) == Run(rest, Key, PopFrames(frames + [t]), Some(|frames| - 1))
  {
    var n := Tree(t.name, "", []);
    ReadyPushed(frames, last, n);
    ValuePlain(s, frames + [n], last, t.value, rest);
    SetTopPushed(frames, n, t.value);
    assert n.(value := t.value) == t;
    LastPopped(frames, t);
  }

  /** A pushed node without children leaves the stack ready for its value. */
  lemma ReadyPushed(frames: seq<Tree>, last: Option<nat>, n: Tree)
    requires Ready(Key, frames, last) && n.kids == []
    ensures Ready(Val, frames + [n], last)
  {
    assert (frames + [n])[..|frames|] == frames;
  }

  /** A popped leaf is the last child of the entry it joins. */
  lemma LastPopped(frames: seq<Tree>, t: Tree)
    requires |frames| >= 1 && t.kids == []
    ensures LastOK(PopFrames(frames + [t]), Some(|frames| - 1))
  {
    var r := PopFrames(frames + [t]);
    assert r[|frames| - 1] == AddKid(frames[|frames| - 1], t);
  }

  /** Reading a written leaf completes it as the new last child of the top entry, and it becomes `last`. */
  lemma ReadLeaf(t: Tree, d: nat, frames: seq<Tree>, last: Option<nat>, rest: string)
    requires Ready(Key, frames, last) && t.kids == []
    ensures LastOK(PopFrames(frames + [t]), Some(|frames| - 1))
    ensures Run(WriteNode(t, d) + rest, Key, frames, last) == Run(rest, Key, PopFrames(frames + [t]), Some(|frames| - 1))
  {
    var r2 := "\n" + rest;
    var r1 := " " + Quoted(t.value) + r2;
    LeafText(t, d, rest);
    TabsAreSpaces(d);
    NextQuoted(Tabs(d), t.name, r1);
    NextQuoted(" ", t.value, r2);
    LeafSteps(WriteNode(t, d) + rest, r1, r2, rest, frames, last, t);
  }

  /**
   * Reading a written node completes it, with its children read back in
   * order, as the new last child of the top entry.
   */
  lemma {:induction false} ReadNode(t: Tree, d: nat, frames: seq<Tree>, last: Option<nat>, rest: string)
    requires Ready(Key, frames, last)
    ensures LastOK(PopFrames(frames + [Canon(t)]), After(t, |frames|))
    ensures Run(WriteNode(t, d) + rest, Key, frames, last) == Run(rest, Key, PopFrames(frames + [Canon(t)]), After(t, |frames|))
    decreases t, 2
  {
    if t.kids == [] {
      ReadLeaf(t, d, frames, last, rest);
    } else {
      ReadBlock(t, d, frames, last, rest);
    }
  }

  /** The text after a node's block: the closing brace on its own line. */
  function Closing(d: nat, rest: string): string {
    Tabs(d) + "}" + ("\n" + rest)
  }

  /** A node with children: the key and `{` push it, its children follow, and `}` closes it. */
  lemma {:induction false} ReadBlock(t: Tree, d: nat, frames: seq<Tree>, last: Option<nat>, rest: string)
    requires Ready(Key, frames, last) && t.kids != []
    ensures Run(WriteNode(t, d) + rest, Key, frames, last) == Run(rest, Key, PopFrames(frames + [Canon(t)]), None)
    decreases t, 1
  {
    BlockOpen(t, d, frames, last, rest);
    BlockBody(t, d, frames, last, rest);
  }

  /** Inside the block: the children are read back into the pushed node, and `}` closes it. */
  lemma {:induction false} BlockBody(t: Tree, d: nat, frames: seq<Tree>, last: Option<nat>, rest: string)
    requires Ready(Key, frames, last) && t.kids != []
    ensures Run(WriteNodes(t.kids, d + 1) + Closing(d, rest), Key, frames + [Tree(t.name, "", [])], last)
         == Run(rest, Key, PopFrames(frames + [Canon(t)]), None)
    decreases t, 0
  {
    ReadNodes(t.kids, d + 1, frames + [Tree(t.name, "", [])], last, Closing(d, rest));
    BlockAttached(t, frames);
    BlockClose(d, frames + [Canon(t)], AfterAll(t.kids, |frames| + 1, last), rest);
  }

  /** The pushed node with its children read back is the node as `Canon` has it. */
  lemma BlockAttached(t: Tree, frames: seq<Tree>)
    requires t.kids != []
    ensures AttachAll(frames + [Tree(t.name, "", [])], CanonSeq(t.kids)) == frames + [Canon(t)]
  {
    AttachPushed(frames, Tree(t.name, "", []), CanonSeq(t.kids));
    CanonBlock(t);
  }

  /** The key of a node with children, and its `{`, push it. */
  lemma BlockOpen(t: Tree, d: nat, frames: seq<Tree>, last: Option<nat>, rest: string)
    requires Ready(Key, frames, last) && t.kids != []
    ensures Run(WriteNode(t, d) + rest, Key, frames, last)
         == Run(WriteNodes(t.kids, d + 1) + Closing(d, rest), Key, frames + [Tree(t.name, "", [])], last)
  {
    var w := WriteNodes(t.kids, d + 1) + Closing(d, rest);
    var r2 := "\n" + w;
    var r1 := " " + "{" + r2;
    BlockText(t, d, rest);
    TabsAreSpaces(d);
    NextQuoted(Tabs(d), t.name, r1);
    NextBrace(" ", '{', r2);
    OpenSteps(WriteNode(t, d) + rest, r1, w, frames, last, t.name);
  }

  /** A key token, a `{` and spaces push a node that stays open. */
  lemma OpenSteps(s: string, r1: string, w: string, frames: seq<Tree>, last: Option<nat>, x: string)
    requires Ready(Key, frames, last)
    requires Next(s) == Some(Lexed(Token(x, false), r1))
    requires Next(r1) == Some(Lexed(Token("{", true), "\n" + w))
    ensures Run(s, Key, frames, last) == Run(w, Key, frames + [Tree(x, "", [])], last)
  {
    KeyPlain(s, frames, last, x, r1);
    ValueOpen(r1, frames + [Tree(x, "", [])], last, "\n" + w);
    RunNewline(w, frames + [Tree(x, "", [])], last);
  }

  /** The closing brace pops the node on top into the entry below. */
  lemma BlockClose(d: nat, frames: seq<Tree>, last: Option<nat>, rest: string)
    requires Ready(Key, frames, last) && |frames| >= 2
    ensures Run(Closing(d, rest), Key, frames, last) == Run(rest, Key, PopFrames(frames), None)
  {
    TabsAreSpaces(d);
    NextBrace(Tabs(d), '}', "\n" + rest);
    KeyClose(Closing(d, rest), frames, last, "\n" + rest);
    RunNewline(rest, PopFrames(frames), None);
  }

  /** Reading written nodes completes them, in order, as new last children of the top entry. */
  lemma {:induction false} ReadNodes(ts: seq<Tree>, d: nat, frames: seq<Tree>, last: Option<nat>, rest: string)
    requires Ready(Key, frames, last)
    ensures LastOK(AttachAll(frames, CanonSeq(ts)), AfterAll(ts, |frames|, last))
    ensures Run(WriteNodes(ts, d) + rest, Key, frames, last)
         == Run(rest, Key, AttachAll(frames, CanonSeq(ts)), AfterAll(ts, |frames|, last))
    decreases ts, 1
  {
    if ts == [] {
      assert CanonSeq(ts) == [] && WriteNodes(ts, d) + rest == rest;
      AttachNone(frames);
    } else {
      ReadCons(ts, d, frames, last, rest);
    }
  }

  /** The first node, then the others. */
  lemma {:induction false} ReadCons(ts: seq<Tree>, d: nat, frames: seq<Tree>, last: Option<nat>, rest: string)
    requires Ready(Key, frames, last) && ts != []
    ensures LastOK(AttachAll(frames, CanonSeq(ts)), AfterAll(ts, |frames|, last))
    ensures Run(WriteNodes(ts, d) + rest, Key, frames, last)
         == Run(rest, Key, AttachAll(frames, CanonSeq(ts)), AfterAll(ts, |frames|, last))
    decreases ts, 0
  {
    Layout(WriteNode(ts[0], d), WriteNodes(ts[1..], d), "", rest);
    ReadNode(ts[0], d, frames, last, WriteNodes(ts[1..], d) + rest);
    ReadNodes(ts[1..], d, PopFrames(frames + [Canon(ts[0])]), After(ts[0], |frames|), rest);
    AttachCons(frames, Canon(ts[0]), CanonSeq(ts[1..]));
    CanonSeqCons(ts);
    AfterCons(ts, |frames|, last);
  }

  /** Attaching one node and then others is attaching them all. */
  lemma AttachCons(frames: seq<Tree>, c: Tree, cs: seq<Tree>)
    requires |frames| >= 1
    ensures AttachAll(PopFrames(frames + [c]), cs) == AttachAll(frames, [c] + cs)
  {
    var top := frames[|frames| - 1];
    assert (frames + [c])[..|frames| - 1] == frames[..|frames| - 1];
    assert top.kids + [c] + cs == top.kids + ([c] + cs);
  }

  lemma AttachNone(frames: seq<Tree>)
    requires |frames| >= 1
    ensures AttachAll(frames, []) == frames
  {
    var top := frames[|frames| - 1];
    assert top.kids + [] == top.kids;
  }

  lemma CanonSeqCons(ts: seq<Tree>)
    requires ts != []
    ensures [Canon(ts[0])] + CanonSeq(ts[1..]) == CanonSeq(ts)
  {
  }

  /** `last` after the first node and then the others is `last` after them all. */
  lemma AfterCons(ts: seq<Tree>, n: nat, last: Option<nat>)
    requires ts != [] && n >= 1
    ensures AfterAll(ts[1..], n, After(ts[0], n)) == AfterAll(ts, n, last)
  {
    if |ts| > 1 {
      assert ts[1..][|ts| - 2] == ts[|ts| - 1];
    }
  }

  /**
   * Reading what `WriteTo` wrote into `root` succeeds and appends the tree's
   * children to the root's, with names, leaf values and shape kept.
   */
  lemma ParseWriteTo(root: Tree, t: Tree)
    ensures Parse(root, WriteTo(t)) == Outcome(root.(kids := root.kids + CanonSeq(t.kids)), None)
  {
    ReadNodes(t.kids, 0, [root], None, []);
    assert WriteTo(t) + [] == WriteTo(t);
    assert Next([]) == None;
  }

  /** The writer never writes a complex node's value, so `Canon` changes nothing it writes. */
  lemma {:induction false} WriteCanon(t: Tree, d: nat)
    ensures WriteNode(Canon(t), d) == WriteNode(t, d)
    decreases t, 1
  {
    WriteCanonSeq(t.kids, d + 1);
    assert Canon(t).kids == CanonSeq(t.kids);
  }

  lemma {:induction false} WriteCanonSeq(ts: seq<Tree>, d: nat)
    ensures WriteNodes(CanonSeq(ts), d) == WriteNodes(ts, d)
    decreases ts, 0
  {
    if ts != [] {
      WriteCanon(ts[0], d);
      WriteCanonSeq(ts[1..], d);
      assert CanonSeq(ts)[1..] == CanonSeq(ts[1..]);
    }
  }

  /** Writing out what was read back gives the same text again. */
  lemma RewriteStable(t: Tree)
    ensures WriteTo(Parse(Tree("", "", []), WriteTo(t)).tree) == WriteTo(t)
  {
    ParseWriteTo(Tree("", "", []), t);
    assert [] + CanonSeq(t.kids) == CanonSeq(t.kids);
    WriteCanonSeq(t.kids, 0);
  }
}

/**
 * The rules of `ReadFrom` on keys, values, braces and conditionals, stated
 * on whole inputs: what a brace or a conditional does where a key or a
 * value is expected, and how a conditional after a leaf keeps or removes it.
 */
module ParseRules {
  import opened Wrappers
  import opened Text
  import opened Trees
  import opened Lexer
  import opened Writer
  import opened Parser
  import opened RoundTrip

  /** A conditional written out on its own: no character in it ends an unquoted token. */
  predicate CondText(x: string) {
    IsConditional(x) && forall i :: 0 <= i < |x| ==> !EndsUnquoted(x[i])
  }

  /** `[$WIN32]` is such a conditional. */
  lemma Win32Text()
    ensures CondText("[$WIN32]")
  {
    var x := "[$WIN32]";
    forall i | 0 <= i < |x|
      ensures !EndsUnquoted(x[i])
    {
      assert x[i] == '[' || x[i] == '$' || x[i] == 'W' || x[i] == 'I' || x[i] == 'N' || x[i] == '3' || x[i] == '2' || x[i] == ']';
    }
  }

  /** A conditional at the start of a line is read as a special token, through the end of its line. */
  lemma NextConditional(x: string, rest: string)
    requires CondText(x)
    ensures Next(x + "\n" + rest) == Some(Lexed(Token(x, true), rest))
  {
    var s := x + "\n" + rest;
    assert s[0] == '[';
    SpaceRunAt(s, 0);
    assert s[0..] == s;
    assert s[1..] == x[1..] + ['\n'] + rest;
    BodyUnquoted(x[1..], '\n', rest, [x[0]]);
    assert [x[0]] + x[1..] == x;
  }

  /**
   * Where a key is expected, a conditional needs a leaf in `last`: without
   * one it is an error; `[$WIN32]` keeps the leaf, and any other conditional
   * removes it.
   */
  lemma KeyConditional(s: string, frames: seq<Tree>, last: Option<nat>, x: string, rest: string)
    requires Ready(Key, frames, last) && IsConditional(x)
    requires Next(s) == Some(Lexed(Token(x, true), rest))
    ensures last.None? ==> Run(s, Key, frames, last) == Outcome(Close(frames), Some(UnexpectedConditionalKey))
    ensures last.Some? && x == "[$WIN32]" ==> Run(s, Key, frames, last) == Run(rest, Key, frames, last)
    ensures last.Some? && x != "[$WIN32]" ==> Run(s, Key, frames, last) == Run(rest, Key, DropLast(frames, last.value), None)
  {
    assert x != "{" && x != "}";
  }

  /** Removing the leaf just popped into the top entry gives the stack back as it was. */
  lemma DropPopped(frames: seq<Tree>, t: Tree)
    requires |frames| >= 1 && t.kids == []
    ensures LastOK(PopFrames(frames + [t]), Some(|frames| - 1))
    ensures DropLast(PopFrames(frames + [t]), |frames| - 1) == frames
  {
    LastPopped(frames, t);
    var n := |frames|;
    var f := PopFrames(frames + [t]);
    var top := frames[n - 1];
    assert f[n - 1] == AddKid(top, t);
    RemoveAtJoin(top.kids, [t]);
    assert top.kids + [t][1..] == top.kids;
    var r := DropLast(f, n - 1);
    assert r[n - 1] == top;
    forall i | 0 <= i < n - 1
      ensures r[i] == frames[i]
    {
      assert f[..n - 1] == (frames + [t])[..n - 1];
    }
  }

  /**
   * A written leaf followed by `[$WIN32]` on its own line reads as the leaf
   * alone: the conditional keeps it.
   */
  lemma Win32KeepsLeaf(root: Tree, t: Tree, rest: string)
    requires t.kids == []
    ensures Parse(root, WriteNode(t, 0) + "[$WIN32]\n" + rest) == Parse(root, WriteNode(t, 0) + rest)
  {
    var x := "[$WIN32]";
    var w := WriteNode(t, 0);
    assert w + "[$WIN32]\n" + rest == w + (x + "\n" + rest);
    ReadLeaf(t, 0, [root], None, x + "\n" + rest);
    ReadLeaf(t, 0, [root], None, rest);
    Win32Text();
    NextConditional(x, rest);
    KeyConditional(x + "\n" + rest, PopFrames([root] + [t]), Some(0), x, rest);
  }

  /**
   * A written leaf followed by any other conditional on its own line is
   * removed again: the input reads as if neither were there.
   */
  lemma ConditionalDropsLeaf(root: Tree, t: Tree, x: string, rest: string)
    requires t.kids == [] && CondText(x) && x != "[$WIN32]"
    ensures Parse(root, WriteNode(t, 0) + x + "\n" + rest) == Parse(root, rest)
  {
    var w := WriteNode(t, 0);
    assert w + x + "\n" + rest == w + (x + "\n" + rest);
    ReadLeaf(t, 0, [root], None, x + "\n" + rest);
    NextConditional(x, rest);
    DropPopped([root], t);
    KeyConditional(x + "\n" + rest, PopFrames([root] + [t]), Some(0), x, rest);
  }

  /** `{` where a key is expected is an error, and the tree is left as built so far. */
  lemma OpenAsKey(root: Tree, rest: string)
    ensures Parse(root, "{" + rest) == Outcome(root, Some(UnexpectedOpen))
  {
    NextBrace("", '{', rest);
    assert "" + ['{'] + rest == "{" + rest;
  }

  /** `}` where a key is expected and only the root is open is an error. */
  lemma CloseAsKey(root: Tree, rest: string)
    ensures Parse(root, "}" + rest) == Outcome(root, Some(UnexpectedCloseKey))
  {
    NextBrace("", '}', rest);
    assert "" + ['}'] + rest == "}" + rest;
  }

  /** A conditional where a key is expected and no leaf precedes it is an error. */
  lemma ConditionalFirst(root: Tree, x: string, rest: string)
    requires CondText(x)
    ensures Parse(root, x + "\n" + rest) == Outcome(root, Some(UnexpectedConditionalKey))
  {
    NextConditional(x, rest);
    KeyConditional(x + "\n" + rest, [root], None, x, rest);
  }

  /** A key read, then the stack with its node pushed where a value is expected. */
  lemma KeyRead(root: Tree, k: string, rest: string)
    ensures Parse(root, Quoted(k) + rest) == Run(rest, Val, [root, Tree(k, "", [])], None)
  {
    NextQuoted("", k, rest);
    assert "" + Quoted(k) + rest == Quoted(k) + rest;
    KeyReadAt(root, Quoted(k) + rest, k, rest);
  }

  lemma KeyReadAt(root: Tree, s: string, k: string, rest: string)
    requires Next(s) == Some(Lexed(Token(k, false), rest))
    ensures Parse(root, s) == Run(rest, Val, [root, Tree(k, "", [])], None)
  {
    KeyPlain(s, [root], None, k, rest);
    assert [root] + [Tree(k, "", [])] == [root, Tree(k, "", [])];
  }

  /** A `}` or a conditional where a value is expected ends the loop with an error. */
  lemma ValueSpecial(s: string, frames: seq<Tree>, last: Option<nat>, x: string, rest: string)
    requires Ready(Val, frames, last) && x != "{"
    requires Next(s) == Some(Lexed(Token(x, true), rest))
    ensures Run(s, Val, frames, last)
         == Outcome(Close(frames), Some(if x == "}" then UnexpectedCloseValue else UnexpectedConditionalValue))
  {
  }

  /** Closing a stack of the root and a key read gives the root with that key as its last child. */
  lemma CloseLeaf(root: Tree, k: string)
    ensures Close([root, Tree(k, "", [])]) == AddKid(root, Tree(k, "", []))
  {
    assert Close([root, Tree(k, "", [])]) == Close(PopFrames([root, Tree(k, "", [])]));
  }

  /** `}` where a value is expected is an error; the key read stays, as a child without a value. */
  lemma CloseAsValue(root: Tree, k: string, rest: string)
    ensures Parse(root, Quoted(k) + " }" + rest) == Outcome(AddKid(root, Tree(k, "", [])), Some(UnexpectedCloseValue))
  {
    assert Quoted(k) + " }" + rest == Quoted(k) + (" " + ['}'] + rest);
    KeyRead(root, k, " " + ['}'] + rest);
    assert IsSpace(" "[0]);
    NextBrace(" ", '}', rest);
    assert Close([root, Tree(k, "", [])]) == Close(PopFrames([root, Tree(k, "", [])]));
  }

  /** A conditional where a value is expected is an error; the key read stays, as a child without a value. */
  lemma ConditionalAsValue(root: Tree, k: string, x: string, rest: string)
    requires CondText(x)
    ensures Parse(root, Quoted(k) + " " + x + "\n" + rest)
         == Outcome(AddKid(root, Tree(k, "", [])), Some(UnexpectedConditionalValue))
  {
    var w := " " + (x + "\n" + rest);
    assert Quoted(k) + " " + x + "\n" + rest == Quoted(k) + w;
    KeyRead(root, k, w);
    assert IsSpace(" "[0]);
    NextSpaces(" ", x + "\n" + rest);
    NextConditional(x, rest);
    assert x[0] == '[';
    ValueSpecial(w, [root, Tree(k, "", [])], None, x, rest);
    CloseLeaf(root, k);
  }

  /** A key with nothing after it ends the input where a value is expected: `io.EOF`. */
  lemma KeyWithoutValue(root: Tree, k: string)
    ensures Parse(root, Quoted(k)) == Outcome(AddKid(root, Tree(k, "", [])), Some(EOF))
  {
    KeyRead(root, k, []);
    assert Quoted(k) + [] == Quoted(k);
    assert Next([]) == None;
    assert Close([root, Tree(k, "", [])]) == Close(PopFrames([root, Tree(k, "", [])]));
  }

  /** Removing the leaf popped before a key was pushed leaves the root and that key. */
  lemma DropUnderKey(root: Tree, t: Tree, k: string)
    requires t.kids == []
    ensures LastOK(PopFrames([root] + [t]) + [Tree(k, "", [])], Some(0))
    ensures DropLast(PopFrames([root] + [t]) + [Tree(k, "", [])], 0) == [root, Tree(k, "", [])]
  {
    var f := PopFrames([root] + [t]);
    DropPopped([root], t);
    var g := f + [Tree(k, "", [])];
    var r := DropLast(g, 0);
    assert r[0] == DropLast(f, 0)[0] == root;
  }

  /**
   * How the input of `LastSurvivesOpen` splits into its tokens: the leaf `a`,
   * the quoted key `q` (with no spaces before it), the brace and the conditional.
   */
  lemma OpenLayout(a: string, q: string, x: string, rest: string)
    ensures a + q + " {\n" + x + "\n" + rest == a + (q + (" " + ['{'] + ("\n" + (x + "\n" + rest))))
    ensures var r := " " + ['{'] + ("\n" + (x + "\n" + rest)); "" + q + r == q + r
  {
  }

  /** The steps of `LastSurvivesOpen` after the leaf, on an input known only by its tokens. */
  lemma KeyOpenConditional(root: Tree, t: Tree, k: string, x: string, rest: string, s: string, r1: string, w: string)
    requires t.kids == [] && IsConditional(x) && x != "[$WIN32]"
    requires Next(s) == Some(Lexed(Token(k, false), r1))
    requires Next(r1) == Some(Lexed(Token("{", true), "\n" + w))
    requires Next(w) == Some(Lexed(Token(x, true), rest))
    requires Ready(Key, PopFrames([root] + [t]), Some(0))
    ensures Run(s, Key, PopFrames([root] + [t]), Some(0)) == Run(rest, Key, [root, Tree(k, "", [])], None)
  {
    var f := PopFrames([root] + [t]);
    OpenSteps(s, r1, w, f, Some(0), k);
    ReadyPushed(f, Some(0), Tree(k, "", []));
    DropUnderKey(root, t, k);
    KeyConditional(w, f + [Tree(k, "", [])], Some(0), x, rest);
  }

  /**
   * `last` survives a key and its `{`: a conditional at the start of the new
   * block removes the leaf written before the block, not anything inside it.
   */
  lemma LastSurvivesOpen(root: Tree, t: Tree, k: string, x: string, rest: string)
    requires t.kids == [] && CondText(x) && x != "[$WIN32]"
    ensures Parse(root, WriteNode(t, 0) + Quoted(k) + " {\n" + x + "\n" + rest)
         == Run(rest, Key, [root, Tree(k, "", [])], None)
  {
    var w := x + "\n" + rest;
    var r1 := " " + ['{'] + ("\n" + w);
    var s := Quoted(k) + r1;
    OpenLayout(WriteNode(t, 0), Quoted(k), x, rest);
    ReadLeaf(t, 0, [root], None, s);
    NextQuoted("", k, r1);
    assert IsSpace(" "[0]);
    NextBrace(" ", '{', "\n" + w);
    NextConditional(x, rest);
    KeyOpenConditional(root, t, k, x, rest, s, r1, w);
  }
}

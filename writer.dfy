/**
 * serialize.go: `escaper`, `writeIndented` and `WriteTo`, as pure functions
 * from a tree to the text they write.
 *
 * The serializer reads `complexValue` and `simpleValue`; on the tree they
 * are a node's children and its value, and "`complexValue` is nil" is "the
 * node has no children". Each node is written as one line when it is a leaf
 * and as a brace block otherwise, indented by one tab per level.
 */
module Writer {
  import opened Wrappers
  import opened Text
  import opened Trees
  import opened Lexer

  /** The characters `escaper` rewrites. */
  predicate Escaped(c: char) {
    c == '\\' || c == '\n' || c == '\r' || c == '\t' || c == '"'
  }

  /** `escaper` on one character: a backslash and a letter for the five it rewrites, the character itself otherwise. */
  function EscapeChar(c: char): (r: string)
    ensures Escaped(c) ==> |r| == 2 && r[0] == '\\' && Unescape(r[1]) == [c]
    ensures !Escaped(c) ==> r == [c]
  {
    match c
    case '\\' => "\\\\"
    case '\n' => "\\n"
    case '\r' => "\\r"
    case '\t' => "\\t"
    case '"' => "\\\""
    case _ => [c]
  }

  /** `escaper.Replace`: every character rewritten on its own, left to right. */
  function Escape(s: string): (r: string)
    ensures |r| >= |s|
  {
    if s == [] then [] else EscapeChar(s[0]) + Escape(s[1..])
  }

  /** `strings.Repeat("\t", d)`. */
  function Tabs(d: nat): (r: string)
    ensures |r| == d && forall i :: 0 <= i < d ==> r[i] == '\t'
  {
    if d == 0 then [] else Tabs(d - 1) + "\t"
  }

  /** A string written between quotes, escaped. */
  function Quoted(s: string): string {
    "\"" + Escape(s) + "\""
  }

  /**
   * `writeIndented` at depth `d`: the tabs and the quoted name and a space;
   * then for a leaf the quoted value and a newline, and for a node with
   * children an opening brace, the children one level deeper in order, and
   * the closing brace on a line of its own at depth `d`.
   */
  function WriteNode(t: Tree, d: nat): (r: string)
    ensures |r| > d + 1 && r[..d] == Tabs(d) && r[d] == '"' && r[|r| - 1] == '\n'
    decreases t, 1
  {
    Tabs(d) + Quoted(t.name) + " "
    + if t.kids == [] then Quoted(t.value) + "\n"
      else "{\n" + WriteNodes(t.kids, d + 1) + Tabs(d) + "}\n"
  }

  /** The nodes `ts`, one after the other, at depth `d`: nothing for no nodes, else whole lines. */
  function WriteNodes(ts: seq<Tree>, d: nat): (r: string)
    ensures r == [] <==> ts == []
    ensures r != [] ==> |r| > d && r[..d] == Tabs(d) && r[d] == '"' && r[|r| - 1] == '\n'
    decreases ts, 0
  {
    if ts == [] then [] else WriteNode(ts[0], d) + WriteNodes(ts[1..], d)
  }

  /**
   * `WriteTo`: the root's children at depth 0; the root's own name and value
   * are not written. A root without children writes nothing; otherwise the
   * text starts with a quoted key at the left margin and ends a line.
   */
  function WriteTo(root: Tree): (r: string)
    ensures r == [] <==> root.kids == []
    ensures r != [] ==> r[0] == '"' && r[|r| - 1] == '\n'
  {
    WriteNodes(root.kids, 0)
  }

  /**
   * The escaper and the quoted-string rule of the reader are inverse: the
   * scan of an escaped string followed by a quote gives the string back and
   * consumes that quote.
   */
  lemma {:induction false} BodyEscaped(x: string, buf: string, rest: string)
    ensures Body(Escape(x) + "\"" + rest, true, buf) == Some(Word(buf + x, rest))
    decreases |x|
  {
    if x == [] {
      assert Escape(x) + "\"" + rest == "\"" + rest && buf + x == buf;
    } else {
      var tail := Escape(x[1..]) + "\"" + rest;
      assert Escape(x) + "\"" + rest == EscapeChar(x[0]) + tail;
      BodyChar(x[0], tail, buf);
      BodyEscaped(x[1..], buf + [x[0]], rest);
      assert buf + [x[0]] + x[1..] == buf + x;
    }
  }

  /** In a quoted token, one escaped character is read back as itself. */
  lemma BodyChar(c: char, tail: string, buf: string)
    ensures Body(EscapeChar(c) + tail, true, buf) == Body(tail, true, buf + [c])
  {
    var e := EscapeChar(c);
    var s := e + tail;
    if Escaped(c) {
      assert s[0] == '\\' && s[1] == e[1] && s[2..] == tail;
    } else {
      assert s[0] == c && s[1..] == tail;
    }
  }

  /** Reading a quoted, escaped string gives a plain token with exactly that text. */
  lemma LexQuoted(x: string, rest: string)
    ensures Lex(Quoted(x) + rest) == Some(Lexed(Token(x, false), rest))
  {
    var s := Quoted(x) + rest;
    assert s[0] == '"' && s[1..] == Escape(x) + "\"" + rest;
    BodyEscaped(x, [], rest);
    assert [] + x == x;
  }

  /** The escaped text holds no quote that a reader could take for the closing one: each is escaped. */
  lemma {:induction false} EscapeQuotes(x: string, i: nat)
    requires i < |Escape(x)| && Escape(x)[i] == '"'
    ensures i > 0 && Escape(x)[i - 1] == '\\'
    decreases |x|
  {
    var e := EscapeChar(x[0]);
    assert Escape(x) == e + Escape(x[1..]);
    if i >= |e| {
      EscapeQuotes(x[1..], i - |e|);
    }
  }
}

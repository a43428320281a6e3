/**
 * The tokenizer of parse.go: `consumeSpaces` and `readString` over a
 * character reader with one character of pushback.
 *
 * The pure functions below say what a call does to the unread input,
 * written as the string still to be read: `SpaceRun` for `consumeSpaces`
 * and `Lex` for `readString`. The methods `ConsumeSpaces` and `ReadString`
 * mirror the source statement by statement on a `Reader` and are proved to
 * agree with them. The only error a read can meet is the end of the input
 * (`io.EOF`); it is the `None` of the results.
 */
module Lexer {
  import opened Wrappers
  import opened Text

  /** What `readString` returns: the token's text and whether it is special. */
  datatype Token = Token(text: string, special: bool)

  /** A token and the input left unread after it. */
  datatype Lexed = Lexed(token: Token, rest: string)

  /** Text gathered by the scanning loop of `readString`, and the input left unread. */
  datatype Word = Word(text: string, rest: string)

  /** The length of the run of space characters that starts `s`. */
  function SpaceRun(s: string): (k: nat)
    ensures k <= |s|
    ensures forall i :: 0 <= i < k ==> IsSpace(s[i])
    ensures k < |s| ==> !IsSpace(s[k])
  {
    if s == [] || !IsSpace(s[0]) then 0 else 1 + SpaceRun(s[1..])
  }

  /** The index of the first `c` in `s`, if there is one. */
  function Find(s: string, c: char): (r: Option<nat>)
    ensures r.Some? ==> r.value < |s| && s[r.value] == c && forall i :: 0 <= i < r.value ==> s[i] != c
    ensures r.None? ==> forall i :: 0 <= i < |s| ==> s[i] != c
  {
    if s == [] then None
    else if s[0] == c then Some(0)
    else match Find(s[1..], c)
      case None => None
      case Some(i) => Some(i + 1)
  }

  /** An unquoted token of the form `[$...]` marks a conditional. */
  predicate IsConditional(s: string) {
    |s| >= 2 && s[0] == '[' && s[1] == '$' && s[|s| - 1] == ']'
  }

  /** What a backslash followed by `c` stands for inside a quoted token. */
  function Unescape(c: char): (r: string)
    ensures c == '\\' || c == 'n' || c == 'r' || c == 't' || c == '"' ==> |r| == 1
    ensures !(c == '\\' || c == 'n' || c == 'r' || c == 't' || c == '"') ==> r == ['\\', c]
  {
    match c
    case '\\' => "\\"
    case 'n' => "\n"
    case 'r' => "\r"
    case 't' => "\t"
    case '"' => "\""
    case _ => ['\\', c]
  }

  /** `LexSlash` on a line comment: what follows its newline, if there is one. */
  lemma SlashLine(u: string)
    ensures LexSlash(['/'] + u) == match Find(u, '\n') case None => None case Some(j) => Resumed(u[j + 1..])
  {
    var t := ['/'] + u;
    assert t[1..] == u;
    if Find(u, '\n').Some? {
      assert t[Find(u, '\n').value + 2..] == u[Find(u, '\n').value + 1..];
    }
  }

  /** `LexSlash` on a block comment: what follows its end, if there is one. */
  lemma SlashBlock(u: string)
    ensures LexSlash(['*'] + u) == match BlockEnd(u) case None => None case Some(v) => Resumed(v)
  {
    assert (['*'] + u)[1..] == u;
  }

  /**
   * The comment branches of `readString`, after a slash and then `c`: a
   * line comment is skipped through its newline, a block comment through
   * its `* /`, and the next token is read.
   */
  method SkipComment(rd: Reader, c: char) returns (tok: Option<Token>)
    requires rd.Valid() && (c == '/' || c == '*')
    modifies rd`pos
    ensures rd.Valid()
    ensures Yields(LexSlash([c] + old(rd.Rest())), tok, rd.Rest())
    decreases |rd.src| - rd.pos, 2
  {
    ghost var u := rd.Rest();
    if c == '/' {
      var found := rd.ReadSlice('\n');
      SlashLine(u);
      if !found {
        return None;
      }
    } else {
      var closed := SkipBlock(rd);
      SlashBlock(u);
      if !closed {
        return None;
      }
    }
    tok := Resume(rd);
  }

  /**
   * The scanning loop of `readString`, which has gathered `buf` so far. A
   * quoted token ends at the closing quote and decodes escapes; an unquoted
   * one ends at a space, which is consumed, or before a quote or a brace,
   * which is pushed back.
   */
  function Body(s: string, quoted: bool, buf: string): (r: Option<Word>)
    ensures r.Some? ==> |r.value.rest| <= |s|
    decreases |s|
  {
    if s == [] then None
    else
      var c := s[0];
      if c == '"' && quoted then Some(Word(buf, s[1..]))
      else if IsSpace(c) && !quoted then Some(Word(buf, s[1..]))
      else if (c == '"' || c == '{' || c == '}') && !quoted then Some(Word(buf, s))
      else if c == '\\' && quoted then
        if |s| < 2 then None else Body(s[2..], quoted, buf + Unescape(s[1]))
      else Body(s[1..], quoted, buf + [c])
  }

  /**
   * After the slash and star that open a block comment: the input after
   * the comment.
   * Each `*` found is followed by one more character, which closes the
   * comment if it is `/` and is skipped otherwise.
   */
  function BlockEnd(s: string): (r: Option<string>)
    ensures r.Some? ==> |r.value| < |s|
    decreases |s|
  {
    match Find(s, '*')
    case None => None
    case Some(j) =>
      if j + 1 >= |s| then None
      else if s[j + 1] == '/' then Some(s[j + 2..])
      else BlockEnd(s[j + 2..])
  }

  /** The token `readString` makes of a finished scan; only an unquoted one can be a conditional. */
  function Finish(w: Option<Word>, quoted: bool): (r: Option<Lexed>)
    ensures r.Some? <==> w.Some?
    ensures r.Some? ==> r.value.token.text == w.value.text && r.value.rest == w.value.rest
  {
    match w
    case None => None
    case Some(w) => Some(Lexed(Token(w.text, !quoted && IsConditional(w.text)), w.rest))
  }

  /** The outer call's verdict on a token read after a comment: a conditional is special even if quoted. */
  function Reclassify(l: Option<Lexed>): (r: Option<Lexed>)
    ensures r.Some? <==> l.Some?
    ensures r.Some? ==> r.value.token.text == l.value.token.text && r.value.rest == l.value.rest
    ensures r.Some? && l.value.token.special ==> r.value.token.special
    ensures r.Some? && IsConditional(r.value.token.text) ==> r.value.token.special
  {
    match l
    case None => None
    case Some(l) => Some(Lexed(Token(l.token.text, l.token.special || IsConditional(l.token.text)), l.rest))
  }

  /**
   * What follows a comment: the spaces after it are skipped and the next
   * token is read, its special flag decided once more by the outer call.
   */
  function Resumed(t: string): (r: Option<Lexed>)
    ensures r.Some? ==> |r.value.rest| < |t|
    decreases |t|, 1
  {
    var k := SpaceRun(t);
    if k == |t| then None else Reclassify(Lex(t[k..]))
  }

  /** `readString` on the unread input `s`. */
  function Lex(s: string): (r: Option<Lexed>)
    ensures r.Some? ==> |r.value.rest| < |s|
    decreases |s|, 0
  {
    if s == [] then None
    else if s[0] == '"' then Finish(Body(s[1..], true, []), true)
    else if s[0] == '/' then LexSlash(s[1..])
    else if s[0] == '{' || s[0] == '}' then Some(Lexed(Token([s[0]], true), s[1..]))
    else Finish(Body(s[1..], false, [s[0]]), false)
  }

  /**
   * `readString` after a leading slash: a second slash starts a comment to
   * the end of the line, a star a block comment, and anything else an
   * unquoted token that keeps both characters.
   */
  function LexSlash(t: string): (r: Option<Lexed>)
    ensures r.Some? ==> |r.value.rest| < |t| + 1
    decreases |t|, 2
  {
    if t == [] then None
    else if t[0] == '/' then
      match Find(t[1..], '\n')
      case None => None
      case Some(j) => Resumed(t[j + 2..])
    else if t[0] == '*' then
      match BlockEnd(t[1..])
      case None => None
      case Some(u) => Resumed(u)
    else Finish(Body(t[1..], false, ['/', t[0]]), false)
  }

  /**
   * The `bufio.Reader` the parser reads from, over a fixed input: `pos`
   * characters have been read. Pushing back is stepping back one character.
   */
  class Reader {
    const src: string
    var pos: nat

    constructor (src: string)
      ensures this.src == src && pos == 0
    {
      this.src := src;
      pos := 0;
    }

    ghost predicate Valid()
      reads this`pos
    {
      pos <= |src|
    }

    /** The input not yet read. */
    ghost function Rest(): string
      reads this`pos
      requires Valid()
    {
      src[pos..]
    }

    /** `ReadRune`: the next character, or `None` at the end of the input. */
    method ReadRune() returns (r: Option<char>)
      requires Valid()
      modifies this`pos
      ensures Valid()
      ensures old(Rest()) == [] ==> r.None? && pos == old(pos)
      ensures old(Rest()) != [] ==> r == Some(old(Rest())[0]) && Rest() == old(Rest())[1..]
    {
      if pos == |src| {
        return None;
      }
      r := Some(src[pos]);
      pos := pos + 1;
    }

    /** `UnreadRune` right after a successful `ReadRune`: that character is unread again. */
    method UnreadRune()
      requires Valid() && pos > 0
      modifies this`pos
      ensures Valid() && pos == old(pos) - 1
      ensures Rest() == [src[pos]] + old(Rest())
    {
      pos := pos - 1;
    }

    /**
     * `ReadSlice(delim)`: reads up to and including the first `delim`, or
     * to the end of the input when there is none, which is an error.
     */
    method ReadSlice(delim: char) returns (found: bool)
      requires Valid()
      modifies this`pos
      ensures Valid()
      ensures var f := Find(old(Rest()), delim);
        && found == f.Some?
        && (found ==> Rest() == old(Rest())[f.value + 1..])
        && (!found ==> Rest() == [])
    {
      ghost var start := pos;
      while pos < |src| && src[pos] != delim
        invariant start <= pos <= |src|
        invariant forall i :: start <= i < pos ==> src[i] != delim
        decreases |src| - pos
      {
        pos := pos + 1;
      }
      found := pos < |src|;
      FindAt(src[start..], delim, pos - start);
      if found {
        pos := pos + 1;
      }
    }
  }

  /** `Find` reports the first occurrence, whichever way it is described. */
  lemma FindAt(s: string, c: char, k: nat)
    requires k <= |s| && (k < |s| ==> s[k] == c) && forall i :: 0 <= i < k ==> s[i] != c
    ensures Find(s, c) == if k < |s| then Some(k) else None
  {
    match Find(s, c)
    case None =>
    case Some(j) =>
  }

  /**
   * `consumeSpaces`: reads the run of spaces and pushes back the first
   * other character. At the end of the input it fails, and the reader is
   * left at the end.
   */
  method ConsumeSpaces(rd: Reader) returns (ok: bool)
    requires rd.Valid()
    modifies rd`pos
    ensures rd.Valid()
    ensures var s := old(rd.Rest()); ok == (SpaceRun(s) < |s|)
    ensures ok ==> rd.Rest() == old(rd.Rest())[SpaceRun(old(rd.Rest()))..]
    ensures !ok ==> rd.Rest() == []
  {
    ghost var s := rd.Rest();
    ghost var start := rd.pos;
    var r := ' ';
    while IsSpace(r)
      invariant rd.Valid() && start <= rd.pos
      invariant rd.pos == start ==> r == ' '
      invariant rd.pos > start ==> rd.src[rd.pos - 1] == r
      invariant forall i :: start <= i < rd.pos - 1 ==> IsSpace(rd.src[i])
      decreases |rd.src| - rd.pos
    {
      var next := rd.ReadRune();
      if next.None? {
        SpaceRunAt(s, |s|);
        return false;
      }
      r := next.value;
    }
    rd.UnreadRune();
    SpaceRunAt(s, rd.pos - start);
    ok := true;
  }

  /** The outcome of a read, as the methods return it, agrees with its description `l`. */
  ghost predicate Yields(l: Option<Lexed>, tok: Option<Token>, rest: string)
  {
    && (tok.None? <==> l.None?)
    && (l.Some? ==> tok == Some(l.value.token) && rest == l.value.rest)
  }

  /**
   * `readString`: reads one token. A quote opens a quoted token; a slash
   * followed by a slash or a star opens a comment, after which the next
   * token is read; a brace is a token on its own; anything else starts an
   * unquoted token. The panic the source raises when a read fails is the
   * `None` result.
   */
  method ReadString(rd: Reader) returns (tok: Option<Token>)
    requires rd.Valid()
    modifies rd`pos
    ensures rd.Valid()
    ensures Yields(Lex(old(rd.Rest())), tok, rd.Rest())
    decreases |rd.src| - rd.pos, 0
  {
    ghost var s := rd.Rest();
    var r := rd.ReadRune();
    if r.None? {
      return None;
    }
    var c := r.value;
    var quoted := false;
    var buf: string;
    if c == '"' {
      quoted := true;
      buf := [];
    } else if c == '/' {
      r := rd.ReadRune();
      if r.None? {
        return None;
      }
      c := r.value;
      assert Lex(s) == LexSlash(s[1..]) && s[1..] == [c] + rd.Rest();
      if c == '/' || c == '*' {
        tok := SkipComment(rd, c);
        return;
      }
      buf := ['/', c];
    } else if c == '{' || c == '}' {
      return Some(Token([c], true));
    } else {
      buf := [c];
    }
    assert Lex(s) == Finish(Body(rd.Rest(), quoted, buf), quoted);
    var text := Scan(rd, quoted, buf);
    if text.None? {
      return None;
    }
    // the deferred check: only an unquoted token can be a conditional
    tok := Some(Token(text.value, !quoted && IsConditional(text.value)));
  }

  /**
   * The scanning loop of `readString`, which has gathered `buf`: reads up
   * to the end of the token and returns its text, or `None` when the input
   * ends first.
   */
  method Scan(rd: Reader, quoted: bool, buf: string) returns (text: Option<string>)
    requires rd.Valid()
    modifies rd`pos
    ensures rd.Valid()
    ensures var w := Body(old(rd.Rest()), quoted, buf);
      && (text.None? <==> w.None?)
      && (w.Some? ==> text == Some(w.value.text) && rd.Rest() == w.value.rest)
  {
    ghost var w := Body(rd.Rest(), quoted, buf);
    var acc := buf;
    while true
      invariant rd.Valid()
      invariant Body(rd.Rest(), quoted, acc) == w
      decreases |rd.src| - rd.pos
    {
      ghost var t, before := rd.Rest(), acc;
      var r := rd.ReadRune();
      if r.None? {
        return None;
      }
      var c := r.value;
      if c == '"' && quoted {
        return Some(acc);
      }
      if IsSpace(c) && !quoted {
        return Some(acc);
      }
      if (c == '"' || c == '{' || c == '}') && !quoted {
        rd.UnreadRune();
        assert rd.Rest() == t;
        return Some(acc);
      }
      if c == '\\' && quoted {
        r := rd.ReadRune();
        if r.None? {
          return None;
        }
        var next := r.value;
        assert rd.Rest() == t[2..] && next == t[1];
        if next == '\\' {
          // a doubled backslash stands for one
        } else if next == 'n' {
          c := '\n';
        } else if next == 'r' {
          c := '\r';
        } else if next == 't' {
          c := '\t';
        } else if next == '"' {
          c := '"';
        } else {
          acc := acc + [c];
          c := next;
        }
        assert acc + [c] == before + Unescape(next);
      }
      acc := acc + [c];
    }
  }

  /**
   * The block-comment loop of `readString`, entered after the slash and the
   * star: reads on to each next star and the character after it, until that
   * character is a slash. Fails when the input ends first.
   */
  method SkipBlock(rd: Reader) returns (closed: bool)
    requires rd.Valid()
    modifies rd`pos
    ensures rd.Valid()
    ensures var e := BlockEnd(old(rd.Rest()));
      && closed == e.Some?
      && (closed ==> rd.Rest() == e.value)
  {
    ghost var e := BlockEnd(rd.Rest());
    var c := '*';
    while c != '/'
      invariant rd.Valid()
      invariant (if c == '/' then Some(rd.Rest()) else BlockEnd(rd.Rest())) == e
      decreases |rd.src| - rd.pos
    {
      // when no star is left, the read below fails at the end of the input
      var _ := rd.ReadSlice('*');
      var r := rd.ReadRune();
      if r.None? {
        return false;
      }
      c := r.value;
    }
    closed := true;
  }

  /** The tail both comment branches of `readString` share: skip spaces, read the next token. */
  method Resume(rd: Reader) returns (tok: Option<Token>)
    requires rd.Valid()
    modifies rd`pos
    ensures rd.Valid()
    ensures Yields(Resumed(old(rd.Rest())), tok, rd.Rest())
    decreases |rd.src| - rd.pos, 1
  {
    var ok := ConsumeSpaces(rd);
    if !ok {
      return None;
    }
    tok := ReadString(rd);
    if tok.Some? && IsConditional(tok.value.text) {
      tok := Some(Token(tok.value.text, true));
    }
  }

  /** `SpaceRun` is the maximal run of spaces, however it is found. */
  lemma {:induction false} SpaceRunAt(s: string, k: nat)
    requires k <= |s| && (forall i :: 0 <= i < k ==> IsSpace(s[i])) && (k < |s| ==> !IsSpace(s[k]))
    ensures SpaceRun(s) == k
    decreases k
  {
    if k > 0 {
      SpaceRunAt(s[1..], k - 1);
    }
  }

  /** The characters that end an unquoted token. */
  predicate EndsUnquoted(c: char) {
    IsSpace(c) || c == '"' || c == '{' || c == '}'
  }

  /**
   * An unquoted token runs, without escape processing, up to the first
   * space, which is consumed, or up to the first quote or brace, which is
   * left unread.
   */
  lemma {:induction false} BodyUnquoted(w: string, c: char, rest: string, buf: string)
    requires forall i :: 0 <= i < |w| ==> !EndsUnquoted(w[i])
    requires EndsUnquoted(c)
    ensures Body(w + [c] + rest, false, buf) == Some(Word(buf + w, if IsSpace(c) then rest else [c] + rest))
    decreases |w|
  {
    if w == [] {
      assert w + [c] + rest == [c] + rest && buf + w == buf;
    } else {
      assert (w + [c] + rest)[1..] == w[1..] + [c] + rest;
      BodyUnquoted(w[1..], c, rest, buf + [w[0]]);
      assert buf + [w[0]] + w[1..] == buf + w;
    }
  }

  /** A line comment is skipped through its newline, and what follows is read as after any comment. */
  lemma LexLineComment(c: string, t: string)
    requires forall i :: 0 <= i < |c| ==> c[i] != '\n'
    ensures Lex("//" + c + "\n" + t) == Resumed(t)
  {
    var s := "//" + c + "\n" + t;
    assert s[2..] == c + "\n" + t;
    FindAt(c + "\n" + t, '\n', |c|);
    assert s[2..][|c| + 1..] == t;
  }

  /**
   * In a block comment the character after each star is consumed before
   * the search goes on: `*` followed by `/` closes the comment, while in
   * `**` followed by `/` the second star is skipped and the slash after it
   * does not close.
   */
  lemma BlockEndStars(u: string, rest: string)
    requires forall i :: 0 <= i < |u| ==> u[i] != '*'
    ensures BlockEnd(u + "*/" + rest) == Some(rest)
    ensures BlockEnd(u + "**/" + rest) == BlockEnd("/" + rest)
  {
    var close, skip := "*/" + rest, "**/" + rest;
    assert close[1] == '/' && close[2..] == rest;
    assert skip[1] != '/' && skip[2..] == "/" + rest;
    BlockEndAfter(u, close);
    BlockEndAfter(u, skip);
    assert u + "*/" + rest == u + close && u + "**/" + rest == u + skip;
  }

  /** `BlockEnd` where the first star starts `w` and a character follows it. */
  lemma BlockEndAfter(u: string, w: string)
    requires forall i :: 0 <= i < |u| ==> u[i] != '*'
    requires |w| >= 2 && w[0] == '*'
    ensures BlockEnd(u + w) == if w[1] == '/' then Some(w[2..]) else BlockEnd(w[2..])
  {
    var s := u + w;
    forall i | 0 <= i < |u|
      ensures s[i] != '*'
    {
      assert s[i] == u[i];
    }
    assert s[|u|] == '*' && s[|u| + 1] == w[1] && s[|u| + 2..] == w[2..];
    BlockEndAt(s, |u|);
  }

  /** `BlockEnd` when the first star is at `k` and a character follows it. */
  lemma BlockEndAt(s: string, k: nat)
    requires k + 1 < |s| && s[k] == '*' && forall i :: 0 <= i < k ==> s[i] != '*'
    ensures BlockEnd(s) == if s[k + 1] == '/' then Some(s[k + 2..]) else BlockEnd(s[k + 2..])
  {
    FindAt(s, '*', k);
  }

  /** A block comment is skipped through its closing star and slash. */
  lemma LexBlockComment(u: string, t: string)
    requires forall i :: 0 <= i < |u| ==> u[i] != '*'
    ensures Lex("/*" + u + "*/" + t) == Resumed(t)
  {
    assert ("/*" + u + "*/" + t)[1..][1..] == u + "*/" + t;
    BlockEndStars(u, t);
  }

  /**
   * Whether a token read without a comment in front is special: exactly
   * the brace tokens and the unquoted conditionals.
   */
  lemma SpecialIff(s: string)
    requires Lex(s).Some? && !(|s| >= 2 && s[0] == '/' && (s[1] == '/' || s[1] == '*'))
    ensures Lex(s).value.token.special <==>
      (s[0] == '{' || s[0] == '}' || (s[0] != '"' && IsConditional(Lex(s).value.token.text)))
  {
  }

  /** After a comment the outer call decides again, so a quoted conditional counts as special too. */
  lemma SpecialAfterComment(t: string)
    requires Resumed(t).Some?
    ensures SpaceRun(t) < |t| && Lex(t[SpaceRun(t)..]).Some?
    ensures Resumed(t).value.token.special <==>
      (Lex(t[SpaceRun(t)..]).value.token.special || IsConditional(Resumed(t).value.token.text))
  {
  }
}

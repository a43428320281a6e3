# keyvalues in Dafny

A model of the `keyvalues` package of go-valve. The package reads, edits and writes
Valve's KeyValues text format. A file holds nested entries: a quoted or bare
key followed by either a value or a brace block of further entries. Comments
and `[$...]` conditionals may appear between entries.

The model has three parts, with one abstract value shared between them:
`Trees.Tree(name, value, kids)`. A node is complex exactly when it has children.

- **The node tree** (`Nodes`, from keyvalues/keyvalues.go).
  - `KeyValues` is a class with the source's fields: `name`, `value`, and the
    `next`, `prev`, `parent` and `child` links.
  - Two ghost fields describe the linked structure. `children` is the sibling
    list in order, and `Repr` is the node together with all its descendants.
  - `ListOK()` ties these links to `children`. `Valid()` says that the whole
    subtree is a well-linked tree, and `Abs()` reads it as a `Tree`.
  - The typed getters are functions on a possibly nil node. The setters,
    `Append`, `NewSubKey` and `Each` are methods on the class. `SubKey` and
    `Remove` are module-level methods because they accept nil.
  - `Append`, `NewSubKey`, `Remove` and `Each` are proved to keep `Valid()` of
    the node whose list they change. `Append` appends the new child's `Tree`,
    `Remove` drops the removed child's `Tree`, and `Each` keeps the `Tree`s of
    the children the callback did not remove, in order. The ancestors of that
    node are not covered (see "Left out").
  - The integer text forms the getters and setters rely on live in `Numbers`.
    These are `strconv.ParseInt`/`ParseUint` in base 0, `fmt.Sprint` of an
    int64, and `"0x%x"` of a uint64.
- **The tokenizer and the parser** (`Lexer`, `Parser`, from keyvalues/parse.go).
  - The reader is a string and a position. Pushing a character back steps
    the position back by one.
  - `ConsumeSpaces`, `ReadString`, `Scan`, `SkipComment`, `SkipBlock` and
    `Resume` follow `consumeSpaces` and `readString` statement by statement.
    Each is proved equal to a pure function of the unread input: `SpaceRun`,
    `Lex`, `Body`, `LexSlash`, `BlockEnd` and `Resumed`.
  - A read that meets the end of the input is `None`. That is the panic that
    `readString` recovers into an `io.EOF` error.
  - `ReadFrom` is the source's loop over a `Stack` class holding the open
    nodes. It is proved equal to the pure `Parse`, a `Run` over one token at a
    time that calls `OnKey` where a key is expected and `OnValue` where a
    value is.
  - Each stack entry is a `Tree` holding the children completed so far. A
    child joins its parent when it is popped, so `Close(frames)`, which pops
    everything, is the tree the source has built at that moment. Every
    outcome, including the errors, carries that tree.
- **The writer** (`Writer`, from keyvalues/serialize.go).
  - `Escape`, `WriteNode`, `WriteNodes` and `WriteTo` are pure functions from
    a tree to the text written.
  - The two source files disagree. serialize.go (lines 12, 30, 33 and 47)
    reads the fields `complexValue` and `simpleValue`, but the `KeyValues`
    struct of keyvalues/keyvalues.go:9-14 has no such fields: it has `value`
    and the `child`/`next` links. The model assumes this mapping:
    `complexValue` is the list of children in sibling order, "`complexValue`
    is nil" is "no children" (`child == nil`), and `simpleValue` is `value`.
  - The mapping decides what happens to an empty brace block. `"k" {}` reads
    as a node with no children. Under the mapping that node is written as a
    leaf, `"k" ""`, so the block does not survive a write. A struct that kept
    an empty non-nil `complexValue` would write `"k" {` and `}` instead.

The main results:
- **Round trip.** `RoundTrip.ParseWriteTo` proves that reading what `WriteTo`
  wrote succeeds and appends the written children to the root. Names, leaf
  values and shape come back. A complex node comes back with an empty value,
  since its value is never written (`Trees.Canon`). `RoundTrip.RewriteStable`
  proves that writing the result again gives the same text.
- **Parse, write, parse.** `Reparse.ReparseStable` proves that the tree read
  from any text comes back unchanged, and without error, when it is written
  out and read again. This holds even when the first read failed.
  `Reparse.RunBuilt` is the invariant behind it: every node the reader
  completes has an empty value if it has children.
- **The reader's rules.** The lemmas of `ParseRules` state the error and
  conditional rules of `ReadFrom` on whole inputs. A leaf followed by
  `[$WIN32]` stays, and a leaf followed by any other conditional is removed.
  `{`, `}` and conditionals in the wrong place give the source's errors.
- **Typed values.** The setter/getter round trips for integers, unsigned
  integers and booleans.
- **Tokenizer inverts the escaper.** `Writer.BodyEscaped` and
  `Writer.LexQuoted` prove that reading a quoted, escaped string gives the
  string back.

Some behaviour of the code is proved as written, even where it may look
surprising:
- In a block comment, the character after each `*` is consumed before the
  search goes on, so `**/` does not end the comment (`Lexer.BlockEndStars`).
- After a comment, the outer `readString` decides the special flag again
  with its own, unquoted, flag. So a quoted `"[$X]"` read straight after a
  comment counts as a conditional (`Lexer.SpecialAfterComment`).
- A conditional just inside a brace block removes the leaf completed before
  the block's key, since `last` is not cleared by `"k" {`. The stack model
  keeps that leaf as the last child of its entry, so `DropLast` removes it
  (`ParseRules.LastSurvivesOpen`).

## Model

| member | source | states |
|---|---|---|
| `Text.EqualFoldIsEquivalence` | keyvalues/keyvalues.go:151 | the name match `SubKey` uses is reflexive, symmetric and transitive |
| `Text.EqualFoldIgnoresCase` | keyvalues/keyvalues.go:151 | for all names: names of different lengths never match, and names of equal length match exactly when every character is the same or the same ASCII letter in the other case (`CaseVariant`) |
| `Text.IsSpace` | keyvalues/parse.go:14 | `unicode.IsSpace`: among ASCII characters, exactly tab, newline, vertical tab, form feed, carriage return and space (`Text.AsciiSpaces`) |
| `Text.Fold` | keyvalues/keyvalues.go:152 | folding maps exactly the letters to lower-case letters, moves upper-case letters by the fixed ASCII distance, and leaves every other character alone |
| `Text.EqualFold` | keyvalues/keyvalues.go:152 | `strings.EqualFold` on names: its meaning is carried by `EqualFoldIsEquivalence` and `EqualFoldIgnoresCase` |
| `Numbers.ParseUint` | keyvalues/keyvalues.go:47 | the empty string is rejected, so a getter falls back to its default |
| `Numbers.ParseInt` | keyvalues/keyvalues.go:35 | the empty string is rejected, so `Int` falls back to its default |
| `Numbers.Digits` | keyvalues/keyvalues.go:97 | the digits of `n` are non-empty, unsigned, and without a leading zero unless `n` is 0, which is written `0` |
| `Numbers.DigitsRoundTrip` | keyvalues/keyvalues.go:97 | the digits written for `n` in base 10 or 16 read back as `n` |
| `Numbers.FormatIntRoundTrip` | keyvalues/keyvalues.go:89-98 | `ParseInt` of the text `SetValueInt` stores for an int64 `v` is `v`, negative values included |
| `Numbers.DecimalRoundTrip` | keyvalues/keyvalues.go:97 | an unsigned decimal numeral within 64 bits reads back through `ParseUint` as its value |
| `Numbers.NegativeRoundTrip` | keyvalues/keyvalues.go:97 | a negative int64, written with a minus sign, reads back as itself |
| `Numbers.FormatHexRoundTrip` | keyvalues/keyvalues.go:103-112 | `ParseUint` of `"0x"` and the lower-case hex digits of a uint64 `v` is `v` |
| `Numbers.BoolTextsParse` | keyvalues/keyvalues.go:138-142 | the stored texts `"1"` and `"0"` parse as the integers 1 and 0 |
| `Trees.RemoveAt` | keyvalues/keyvalues.go:212-227 | the list without the element at `i`: one shorter, the elements before `i` in place, those after it moved up by one |
| `Trees.KeepFrom` | keyvalues/keyvalues.go:199-210 | every child left after `Each` is an original child that the callback did not remove |
| `Trees.Canon` | keyvalues/serialize.go:30-37 | what a write and a read keep of a tree: the result is canonical, has the same name and number of children, and a leaf is kept whole |
| `Trees.CanonSeq` | keyvalues/serialize.go:47-53 | `Canon` of every tree of a list, each canonical |
| `Trees.CanonIdempotent` | keyvalues/serialize.go:30-37 | applying `Canon` twice changes nothing: what one write and read keep, the next keeps too |
| `Trees.CanonicalFixed` | keyvalues/serialize.go:30-37 | the trees a write and a read keep unchanged are exactly the canonical ones, those whose complex nodes have empty values |
| `Trees.CanonSeqFixed` | keyvalues/serialize.go:47-53 | a list of canonical trees is kept unchanged |
| `Trees.Keep` | keyvalues/keyvalues.go:199-210 | the children `Each` leaves: never more than there were (its meaning is in `KeepIs`, `KeepNone`, `KeepAll` and `KeepFrom`) |
| `Trees.Kept` | keyvalues/keyvalues.go:199-210 | the indices of the children not removed, increasing, each one not removed |
| `Trees.KeepIs` | keyvalues/keyvalues.go:199-210 | what `Keep` returns is exactly the original elements at the indices `Kept` lists, in that order |
| `Trees.KeepByIndex` | keyvalues/keyvalues.go:199-210 | a list that holds the original elements at the kept indices is `Keep`'s result |
| `Trees.KeepNone` | keyvalues/keyvalues.go:199-210 | when the callback removes nothing, every child is left |
| `Trees.KeepAll` | keyvalues/keyvalues.go:199-210 | when the callback removes every child, none is left |
| `Nodes.KeyValues.constructor` | keyvalues/keyvalues.go:167 | a new node is free, has the given name, an empty value and no children, and stands for the leaf `Tree(name, "", [])` |
| `Nodes.KeyValues.SetValueString` | keyvalues/keyvalues.go:76-85 | on a leaf, only `value` changes and becomes `v`; `String` then returns `v` for every default |
| `Nodes.KeyValues.SetValueInt` | keyvalues/keyvalues.go:89-98 | on a leaf, only `value` changes and becomes the base-10 text of `v`; `Int` then returns `v` for every default |
| `Nodes.KeyValues.SetValueUint64` | keyvalues/keyvalues.go:103-112 | on a leaf, only `value` changes and becomes `"0x"` and lower-case hex; `Uint64` then returns `v` for every default |
| `Nodes.KeyValues.SetValueBool` | keyvalues/keyvalues.go:130-143 | on a leaf, only `value` changes and becomes `"1"` or `"0"`; `Bool` then returns `v` for every default |
| `Nodes.KeyValues.Append` | keyvalues/keyvalues.go:174-197 | a nil child changes nothing; a free valid subtree becomes the last child with its `parent` set, earlier children keep their order, the node stays valid and its `Tree` gains the child's `Tree` at the end |
| `Nodes.KeyValues.Link` | keyvalues/keyvalues.go:185-196 | the walk to the end of the sibling list links `c` there: the list becomes the old list plus `c` and stays well formed |
| `Nodes.KeyValues.NewSubKey` | keyvalues/keyvalues.go:161-169 | returns a fresh empty-valued leaf named `name`, appended as the last child; the node's `Tree` gains `Tree(name, "", [])` at the end |
| `Nodes.KeyValues.Each` | keyvalues/keyvalues.go:199-210 | every original child is visited once, in list order, even when the callback removes the current one; the children left are those not removed, in order, and each removed one is free; a valid node stays valid, and its `Tree` keeps exactly the `Tree`s of the children not removed, in order |
| `Nodes.KeyValues.Traverse` | keyvalues/keyvalues.go:204-209 | the loop visits every original child in order; the list left is the original with the removed children taken out, each kept child at the index `Kept` gives, and the removed subtrees leave the node's `Repr` |
| `Nodes.KeyValues.Drop` | keyvalues/keyvalues.go:207 | the callback's `Remove` of the current child deletes it from the list; a valid node stays valid with that child's `Tree` dropped |
| `Nodes.KeepKeepsValid` | keyvalues/keyvalues.go:199-210 | after `Each`'s removals, a node that was valid stays valid, with its name and value, and its `Tree`'s children are the old ones at the kept indices |
| `Nodes.KeyValues.ListOK` | keyvalues/keyvalues.go:9-14 | the `child`, `next`, `prev` and `parent` links spell out the list `children`; every list operation above ensures it |
| `Nodes.KeyValues.Valid` | keyvalues/keyvalues.go:9-14 | the whole subtree is well linked and children's subtrees are disjoint; kept by `Append`, `NewSubKey`, `Remove` and `Each` on the node they change |
| `Nodes.KeyValues.Abs` | keyvalues/keyvalues.go:9-14 | the subtree read as a `Tree`: same name and value, one child `Tree` per child, and no children exactly when `child` is nil |
| `Nodes.KeyValues.Step` | keyvalues/keyvalues.go:204-208 | one turn of the `Each` loop keeps the loop's description: children kept so far followed by the children not yet visited |
| `Nodes.KeyValues.Visit` | keyvalues/keyvalues.go:205-207 | the successor is read before the callback, and is the next original child; removing the current child deletes exactly it from the list |
| `Nodes.Remove` | keyvalues/keyvalues.go:212-227 | a nil node is a no-op; otherwise the node ends free, and its parent's list loses exactly that node, keeps the others in order and stays well formed; a valid parent stays valid with that child's `Tree` dropped from its `Tree`, and the removed subtree keeps its own `Tree` |
| `Nodes.Splice` | keyvalues/keyvalues.go:216-226 | the neighbours are linked to each other, the parent's first-child link moves past the node when it was first, and the node's own links are cleared |
| `Nodes.RemoveKeepsValid` | keyvalues/keyvalues.go:212-227 | removing a child of a valid node leaves it valid, its `Tree` without that child, and the removed subtree valid with its own `Tree` unchanged |
| `Nodes.AppendKeepsValid` | keyvalues/keyvalues.go:174-197 | linking a free valid subtree as last child keeps the parent valid and appends the subtree's `Tree` |
| `Nodes.SubKey` | keyvalues/keyvalues.go:147-157 | nil for a nil node or when no child's name matches; otherwise the first child, in list order, whose name matches under case folding |
| `Nodes.String` | keyvalues/keyvalues.go:22-27 | the default for a nil or complex node, the stored value for a leaf |
| `Nodes.Int` | keyvalues/keyvalues.go:31-39 | the default for a nil or complex node or an unparseable value, else the parsed int64 |
| `Nodes.Uint64` | keyvalues/keyvalues.go:43-51 | the default for a nil or complex node or an unparseable value, else the parsed uint64 |
| `Nodes.Bool` | keyvalues/keyvalues.go:67-72 | the default when there is no integer value; otherwise false exactly when the integer is 0 |
| `Nodes.Decisions` | keyvalues/keyvalues.go:199-210 | the callback's answers for `n` children: a child is removed exactly when its answer says so, and a missing answer keeps it |
| `Lexer.SpaceRun` | keyvalues/parse.go:11-23 | the length of the maximal run of spaces at the start of the input |
| `Lexer.Find` | keyvalues/parse.go:66 | the index of the first occurrence of `c`, or none when there is no occurrence |
| `Lexer.Unescape` | keyvalues/parse.go:122-139 | backslash with `\`, `n`, `r`, `t` or `"` stands for one character; any other pair is kept as both characters |
| `Lexer.IsConditional` | keyvalues/parse.go:49 | a token of the form `[$...]`: which tokens it makes special is stated by `SpecialIff` and `SpecialAfterComment` |
| `Lexer.Body` | keyvalues/parse.go:107-141 | the scanning loop never gives back more input than it had; `Scan` is proved to compute it, and `BodyUnquoted` and `Writer.BodyEscaped` state what it reads |
| `Lexer.BlockEnd` | keyvalues/parse.go:79-84 | the input after a block comment is strictly shorter; `BlockEndStars`, `BlockEndAfter` and `BlockEndAt` state where the comment ends |
| `Lexer.Reclassify` | keyvalues/parse.go:48-52 | the token after a comment keeps its text and its special flag, and also becomes special when its text is a conditional |
| `Lexer.Resumed` | keyvalues/parse.go:71-78 | after a comment, spaces are skipped and the next token read always consumes input |
| `Lexer.Lex` | keyvalues/parse.go:25-142 | `readString` on the unread input always consumes input when it reads a token; `ReadString` is proved to compute it, and `SpecialIff` and `LexQuoted` state what it reads |
| `Lexer.LexSlash` | keyvalues/parse.go:58-98 | a token read after `/` consumes input; `LexLineComment` and `LexBlockComment` state what the comments skip |
| `Lexer.Reader.ReadRune` | keyvalues/parse.go:38-45 | the next character, consumed, or none at the end of the input |
| `Lexer.Reader.UnreadRune` | keyvalues/parse.go:118 | the character just read becomes unread again |
| `Lexer.Reader.ReadSlice` | keyvalues/parse.go:66 | consumes through the first `delim`; without one it consumes everything and fails |
| `Lexer.ConsumeSpaces` | keyvalues/parse.go:11-23 | consumes the maximal run of spaces, leaves the next character unread, and fails exactly when the input holds only spaces |
| `Lexer.Finish` | keyvalues/parse.go:48-52 | a finished scan is a token with the scanned text and the input after it |
| `Lexer.ReadString` | keyvalues/parse.go:25-142 | the token read and the input left are those of `Lex`, including the failures at the end of the input |
| `Lexer.SkipComment` | keyvalues/parse.go:64-95 | after `//` or `/*` the comment is skipped and the next token is read, as `LexSlash` says |
| `Lexer.Scan` | keyvalues/parse.go:107-141 | the scanning loop returns the text of `Body` and leaves the reader where `Body` ends, or fails where it does |
| `Lexer.SkipBlock` | keyvalues/parse.go:79-87 | the loop over `*` ends after the comment exactly where `BlockEnd` says, and fails when the comment is not closed |
| `Lexer.Resume` | keyvalues/parse.go:71-78 | after a comment: spaces are skipped and the next token is read, as `Resumed` says |
| `Lexer.SpaceRunAt` | keyvalues/parse.go:14-21 | any run of spaces ended by a non-space or the end of the input is the run `consumeSpaces` consumes |
| `Lexer.BodyUnquoted` | keyvalues/parse.go:113-121 | an unquoted token runs without escapes up to the first space, which is consumed, or the first quote or brace, which is left unread |
| `Lexer.LexLineComment` | keyvalues/parse.go:65-78 | `//` skips through the first newline, and what follows is read as after any comment |
| `Lexer.BlockEndStars` | keyvalues/parse.go:79-84 | `*/` ends a block comment, while in `**/` the second star is consumed and the `/` after it does not end it |
| `Lexer.LexBlockComment` | keyvalues/parse.go:79-95 | `/*`, text without a star, and `*/` are skipped, and what follows is read as after any comment |
| `Lexer.SpecialIff` | keyvalues/parse.go:99-102 | without a comment in front, a token is special exactly when it is a brace or an unquoted conditional |
| `Lexer.SpecialAfterComment` | keyvalues/parse.go:48-52 | after a comment, a token is special when the inner read says so or its text is a conditional, quoted or not |
| `Writer.EscapeChar` | keyvalues/serialize.go:9 | backslash, newline, carriage return, tab and quote become a backslash and a character that the reader turns back into the original; all others are kept |
| `Writer.Escape` | keyvalues/serialize.go:9 | escaping never shortens a string |
| `Writer.Tabs` | keyvalues/serialize.go:24 | the indentation of depth `d` is `d` tabs |
| `Writer.Quoted` | keyvalues/serialize.go:25 | a name or value between quotes, escaped; read back as exactly that string (`Writer.LexQuoted`) |
| `Writer.WriteNode` | keyvalues/serialize.go:23-62 | `writeIndented` at depth `d`: the text starts with `d` tabs and a quote and ends with a newline; read back by `RoundTrip.ReadNode` |
| `Writer.WriteNodes` | keyvalues/serialize.go:47-53 | the children written one after the other: empty exactly when there are none, and otherwise indented, starting with a quote and ending with a newline |
| `Writer.WriteTo` | keyvalues/serialize.go:11-21 | nothing is written exactly when the root has no children; otherwise the text starts with a quote and ends with a newline; `RoundTrip.ParseWriteTo` reads it back |
| `Writer.BodyEscaped` | keyvalues/serialize.go:9 | the quoted-token scan of an escaped string and a closing quote returns exactly the string and consumes that quote |
| `Writer.BodyChar` | keyvalues/serialize.go:9 | in a quoted token each escaped character reads back as itself |
| `Writer.LexQuoted` | keyvalues/serialize.go:33 | a quoted, escaped string is read as a plain token whose text is exactly that string |
| `Writer.EscapeQuotes` | keyvalues/serialize.go:9 | every quote in escaped text follows a backslash, so none of them ends the token |
| `Parser.AddKid` | keyvalues/keyvalues.go:161-169 | a node with one more child at the end, the earlier ones and the name and value kept |
| `Parser.Close` | keyvalues/parse.go:224 | the tree built so far: every open node is already a child of the one below, as `NewSubKey` makes it; the root keeps its name, value and earlier children, and gains one more child when a node is open |
| `Parser.PopFrames` | keyvalues/parse.go:157-164 | `pop` removes the top entry, which stays the last child of the entry below; the other entries are unchanged |
| `Parser.SetTop` | keyvalues/parse.go:251-252 | only the top entry's value changes |
| `Parser.DropLast` | keyvalues/parse.go:218 | `last.Remove()` deletes the last child of the entry that holds `last`; everything else stays |
| `Parser.Next` | keyvalues/parse.go:175-189 | a token read always consumes input |
| `Parser.EndOfInput` | keyvalues/parse.go:175-193 | at the end of the input where a key is expected, the result is success exactly when only the root is open, else `io.EOF`; the tree is the one built so far |
| `Parser.OnKey` | keyvalues/parse.go:194-224 | a plain key is pushed and a value is expected next; `{`, a `}` that pops the root, or a conditional without `last` end the loop with the source's error; `[$WIN32]` keeps `last`, any other conditional removes it |
| `Parser.OnValue` | keyvalues/parse.go:226-252 | a plain value sets and pops the node, which becomes `last`; `{` keeps it open; `}` and a conditional end the loop with the source's errors |
| `Parser.AtEnd` | keyvalues/parse.go:226-237 | the end of the input succeeds only where a key is expected with only the root open; the tree is the one built so far |
| `Parser.Run` | keyvalues/parse.go:172-253 | the loop of `ReadFrom`: the tree it ends with, whatever the outcome, keeps the root's name and value; `ReadFrom` is proved to compute it |
| `Parser.Parse` | keyvalues/parse.go:166-256 | `ReadFrom` into `root` keeps its name and value; what it reads is stated by `RoundTrip.ParseWriteTo`, the `ParseRules` lemmas and `Reparse.ReparseStable` |
| `Parser.Stack.constructor` | keyvalues/parse.go:170 | the stack starts as the root alone |
| `Parser.Stack.Push` | keyvalues/parse.go:146-148 | the new node goes on top |
| `Parser.Stack.Pop` | keyvalues/parse.go:157-164 | returns the top entry and removes it; below the root the stack is left empty |
| `Parser.Stack.SetTopValue` | keyvalues/parse.go:252 | `SetValueString` on the node just popped, applied to the top entry before it joins its parent |
| `Parser.Stack.RemoveLast` | keyvalues/parse.go:218 | the leaf `last` is deleted from its parent |
| `Parser.NextToken` | keyvalues/parse.go:175-189 | `consumeSpaces` and then `readString` give the next token and the input after it, or fail at the end of the input |
| `Parser.ReadFrom` | keyvalues/parse.go:166-256 | the loop over the reader and the stack returns exactly the outcome of `Parse`: the tree built and the error, if any |
| `Parser.OnKeyToken` | keyvalues/parse.go:194-224 | the key branch of the loop body does to the stack and to `last` what `OnKey` says |
| `Parser.OnValueToken` | keyvalues/parse.go:238-252 | the value branch of the loop body does to the stack and to `last` what `OnValue` says |
| `RoundTrip.NextSpaces` | keyvalues/parse.go:11-23 | spaces in front change nothing about the next token |
| `RoundTrip.RunSpaces` | keyvalues/parse.go:171-180 | spaces in front change nothing about the rest of the parse |
| `RoundTrip.NextQuoted` | keyvalues/parse.go:56-57 | after spaces, a quoted escaped string is read as a plain token |
| `RoundTrip.NextBrace` | keyvalues/parse.go:99-102 | after spaces, a brace is read as a special token of its own |
| `RoundTrip.KeyPlain` | keyvalues/parse.go:224 | where a key is expected, a plain token pushes a new empty node |
| `RoundTrip.ValuePlain` | keyvalues/parse.go:251-252 | where a value is expected, a plain token sets the node's value and pops it, and it becomes `last` |
| `RoundTrip.ValueOpen` | keyvalues/parse.go:238-241 | where a value is expected, `{` leaves the node open |
| `RoundTrip.KeyClose` | keyvalues/parse.go:199-206 | where a key is expected, `}` pops the open node into its parent and clears `last` |
| `RoundTrip.LeafText` | keyvalues/serialize.go:24-37 | a leaf is written as the tabs, the quoted name, a space, the quoted value and a newline |
| `RoundTrip.BlockText` | keyvalues/serialize.go:38-59 | a node with children is written as the tabs, the quoted name, ` {`, a newline, the children one level deeper, and the tabs, `}` and a newline |
| `RoundTrip.ReadLeaf` | keyvalues/serialize.go:30-37 | reading a written leaf completes it as the new last child of the open node, and it becomes `last` |
| `RoundTrip.ReadNode` | keyvalues/serialize.go:23-62 | reading a written node completes it, with its children read back in order, as the new last child of the open node |
| `RoundTrip.ReadBlock` | keyvalues/serialize.go:38-59 | reading a written block pushes the node, reads its children into it, and `}` closes it |
| `RoundTrip.ReadNodes` | keyvalues/serialize.go:50-56 | reading written nodes appends them, in order, to the children of the open node |
| `RoundTrip.ParseWriteTo` | keyvalues/serialize.go:11-21 | reading what `WriteTo` wrote into a root succeeds and appends the written children, with names, leaf values and shape kept |
| `RoundTrip.WriteCanon` | keyvalues/serialize.go:38-59 | a complex node's value is never written, so forgetting it changes nothing in the text |
| `RoundTrip.RewriteStable` | keyvalues/serialize.go:11-21 | writing out what was read back from `WriteTo`'s text gives the same text again |
| `ParseRules.NextConditional` | keyvalues/parse.go:49-52 | a conditional on its own line is read as a special token that takes the rest of the line |
| `ParseRules.KeyConditional` | keyvalues/parse.go:207-220 | where a key is expected, a conditional without `last` is an error; `[$WIN32]` keeps `last`; any other conditional removes it and clears `last` |
| `ParseRules.Win32KeepsLeaf` | keyvalues/parse.go:214-216 | a written leaf followed by `[$WIN32]` reads exactly as the leaf alone |
| `ParseRules.ConditionalDropsLeaf` | keyvalues/parse.go:218-220 | a written leaf followed by any other conditional reads as if neither were there |
| `ParseRules.OpenAsKey` | keyvalues/parse.go:196-198 | `{` where a key is expected is the "Unexpected '{'" error, with the tree as it was |
| `ParseRules.CloseAsKey` | keyvalues/parse.go:199-205 | `}` where a key is expected and only the root is open is the "Unexpected '}'" error |
| `ParseRules.ConditionalFirst` | keyvalues/parse.go:208-210 | a conditional before any leaf is the "Unexpected conditional: expecting a key" error |
| `ParseRules.KeyRead` | keyvalues/parse.go:224 | a quoted key pushes a new empty node and a value is expected next |
| `ParseRules.ValueSpecial` | keyvalues/parse.go:238-248 | where a value is expected, `}` and a conditional end the loop with their own errors and the tree built so far |
| `ParseRules.CloseAsValue` | keyvalues/parse.go:242-244 | `}` after a key is an error, and the key stays as a child with an empty value |
| `ParseRules.ConditionalAsValue` | keyvalues/parse.go:245-247 | a conditional after a key is an error, and the key stays as a child with an empty value |
| `ParseRules.KeyWithoutValue` | keyvalues/parse.go:226-230 | a key at the end of the input is `io.EOF`, and the key stays as a child |
| `ParseRules.LastSurvivesOpen` | keyvalues/parse.go:218-241 | `"k" {` does not clear `last`: a conditional at the start of the block removes the leaf written before `"k"` and keeps `k` open |
| `Reparse.StepBuilt` | keyvalues/parse.go:194-252 | every turn of the loop keeps the stack built: children canonical, and open nodes above the root with empty values |
| `Reparse.CloseBuilt` | keyvalues/parse.go:224 | the tree built from such a stack has canonical children |
| `Reparse.RunBuilt` | keyvalues/parse.go:172-253 | whatever the input and however the loop ends, the tree left has canonical children |
| `Reparse.ParseBuilt` | keyvalues/parse.go:166-256 | reading into a node whose children are canonical leaves them canonical |
| `Reparse.ReparseStable` | keyvalues/serialize.go:11-21 | the tree read from any text, written out and read into a node with the same name and value and no children, comes back the same and without error |
| `Reparse.ReparseFresh` | keyvalues/parse.go:166-256 | the same for a fresh root with no children |

## Left out

- `Float` and `SetValueFloat` (keyvalues/keyvalues.go:55-63, 116-125): floating-point parsing and formatting are not modelled.
- `Name()` (keyvalues/keyvalues.go:16-18) is the `name` field itself and has no member of its own.
- `Numbers.ParseInt`, `Numbers.ParseUint`: `strconv`'s base-0 grammar is covered except underscores between digits, which the model rejects. The round trips only use decimal and `0x` forms.
- `Text.EqualFold`: case folding is concrete for ASCII letters only. Unicode simple folding is not modelled.
- `Text.IsSpace` lists the Unicode White_Space characters of `unicode.IsSpace`. Nothing in the model depends on the non-ASCII ones.
- The byte counts `n` returned by `ReadFrom` and `WriteTo` are not modelled. They depend on UTF-8 widths, and parse.go counts a pushed-back character twice.
- `bufio` details are not modelled: `ReadSlice`'s buffer-full error on very long comments, and invalid UTF-8 read as U+FFFD. The reader is a string of characters with one step of pushback.
- The `err == nil` test of the block-comment loop (keyvalues/parse.go:80) is folded into `SkipBlock`'s failure: when `ReadSlice` fails, the following read fails too, since the input is exhausted.
- Errors of the `io.Writer` are not modelled: the writer is infallible string concatenation.
- The panics of the setters, `NewSubKey`, `Append` and `Each` on a nil or complex receiver are preconditions. The panic `Append` raises for a child already in a hierarchy is a precondition too.
- `Nodes.KeyValues.Append`: the source does not check for a cycle made by appending an ancestor. The model requires a free valid subtree disjoint from the receiver.
- `Nodes.Remove`: the model requires the sibling list around the node to be well formed, and a parentless node to have no siblings. Nodes only gain siblings through `Append`.
- `Nodes.KeyValues.Each`: the callback is an arbitrary function in the source. The model takes the callback's answers as a list of booleans saying which visited child it removes, and has it do nothing else.
- `ReadFrom` is modelled on `Tree` values rather than on heap nodes. `push(peek().NewSubKey(key))` becomes `Stack.Push` of a new entry that joins its parent when popped. `SetValueString` and `Remove` act on the stack entries. The heap methods `NewSubKey` and `Remove` are proved separately to act on `Abs()` of the node whose list they change in the same way: appending a leaf, and dropping a child. Nothing is proved about the heap nodes above that node (see the next three lines).
- `Nodes.KeyValues.NewSubKey`: `Valid()` and `Abs()` are proved kept for the receiver only. `Repr`, the ghost set of descendants, is not updated in the receiver's ancestors, so after the call they are no longer `Valid()`. Their trees do change in the same way in the source.
- `Nodes.KeyValues.Append`: `Valid()` and `Abs()` are proved kept for the receiver only, for the same reason as `NewSubKey`.
- `Nodes.Remove`: `Valid()` and `Abs()` are proved kept for the removed node's parent and for the removed subtree only, for the same reason as `NewSubKey`. The same holds for `Nodes.KeyValues.Each`, whose receiver is that parent.
- `peek` has no member of its own: its one use is the parent of the pushed node, which is the entry below it on the stack.
- `Parser.Stack.Pop`: `s.pop() == kv` is modelled as "the stack is left empty", which holds exactly when the popped entry is the root.
- A node popped by a value has its value set before it joins its parent, where the source sets it just after. The resulting tree is the same.
- A complex node with no children cannot be written. With `complexValue` read as the children, "`complexValue` is nil" and "no children" are the same condition, so such a node is written as a leaf.
- The command-line tool in cmd/format-keyvalues (byte-order marks, UTF-16 transcoding, standard input and output) is not part of this model.

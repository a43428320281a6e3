/**
 * Reading what was read: whatever `ReadFrom` builds from any input, even
 * one it rejects, is a tree the writer and the reader keep as it is, so
 * writing it out and reading that back gives the same tree without error.
 */
module Reparse {
  import opened Wrappers
  import opened Trees
  import opened Lexer
  import opened Writer
  import opened Parser
  import opened RoundTrip

  /** Every child of `t` is canonical: a node with children has an empty value. */
  predicate KidsCanonical(t: Tree) {
    forall i :: 0 <= i < |t.kids| ==> Canonical(t.kids[i])
  }

  /**
   * What the stack of `ReadFrom` keeps: the children of every entry are
   * canonical, and every entry above the root still has the empty value
   * `NewSubKey` gave it.
   */
  predicate Built(frames: seq<Tree>) {
    && (forall i :: 0 <= i < |frames| ==> KidsCanonical(frames[i]))
    && (forall i :: 1 <= i < |frames| ==> frames[i].value == "")
  }

  /** A key with canonical children and, unless it is a leaf, an empty value is itself canonical. */
  lemma CanonicalNode(t: Tree)
    requires KidsCanonical(t) && (t.kids == [] || t.value == "")
    ensures Canonical(t)
  {
  }

  /** Adding a canonical child keeps the children canonical. */
  lemma AddKidBuilt(p: Tree, c: Tree)
    requires KidsCanonical(p) && Canonical(c)
    ensures KidsCanonical(AddKid(p, c))
  {
    var r := AddKid(p, c);
    forall i | 0 <= i < |r.kids|
      ensures Canonical(r.kids[i])
    {
      if i < |p.kids| {
        assert r.kids[i] == r.kids[..|p.kids|][i];
      }
    }
  }

  /** `pop` keeps the stack built, provided the top is canonical once closed. */
  lemma PopBuilt(frames: seq<Tree>)
    requires |frames| >= 2 && Built(frames[..|frames| - 1])
    requires Canonical(frames[|frames| - 1])
    ensures Built(PopFrames(frames))
  {
    var n := |frames|;
    var r := PopFrames(frames);
    AddKidBuilt(frames[n - 2], frames[n - 1]);
    forall i | 0 <= i < n - 2
      ensures r[i] == frames[i]
    {
      assert r[i] == r[..n - 2][i];
      assert frames[i] == frames[..n - 1][i];
    }
    assert frames[n - 2] == frames[..n - 1][n - 2];
  }

  /** Closing a built stack gives a tree whose children are all canonical. */
  lemma {:induction false} CloseBuilt(frames: seq<Tree>)
    requires |frames| >= 1 && Built(frames)
    ensures KidsCanonical(Close(frames))
    decreases |frames|
  {
    if |frames| > 1 {
      var n := |frames|;
      assert frames[n - 1].value == "";
      CanonicalNode(frames[n - 1]);
      PopBuilt(frames);
      CloseBuilt(PopFrames(frames));
    }
  }

  /** Removing the leaf `last` keeps the stack built. */
  lemma DropBuilt(frames: seq<Tree>, d: nat)
    requires d < |frames| && frames[d].kids != [] && Built(frames)
    ensures Built(DropLast(frames, d))
  {
    var r := DropLast(frames, d);
    var kids := frames[d].kids;
    RemoveAtJoin(kids, [kids[|kids| - 1]]);
    assert kids[..|kids| - 1] + [kids[|kids| - 1]] == kids;
    forall i | 0 <= i < |r[d].kids|
      ensures Canonical(r[d].kids[i])
    {
      assert r[d].kids[i] == kids[i];
    }
  }

  /** Giving the top its value and popping it, as a plain value does, keeps the stack built. */
  lemma LeafBuilt(frames: seq<Tree>, v: string)
    requires |frames| >= 2 && frames[|frames| - 1].kids == [] && Built(frames)
    ensures Built(PopFrames(SetTop(frames, v)))
  {
    var n := |frames|;
    var f := SetTop(frames, v);
    assert f[..n - 1] == frames[..n - 1];
    CanonicalNode(f[n - 1]);
    PopBuilt(f);
  }

  /** Pushing a new key, empty-valued and without children, keeps the stack built. */
  lemma PushBuilt(frames: seq<Tree>, k: string)
    requires Built(frames)
    ensures Built(frames + [Tree(k, "", [])])
  {
  }

  /** One token, where a key or a value is expected, keeps the stack built. */
  lemma StepBuilt(mode: Mode, l: Lexed, frames: seq<Tree>, last: Option<nat>)
    requires Ready(mode, frames, last) && Built(frames)
    ensures var r := if mode == Key then OnKey(l.token, frames, last) else OnValue(l.token, frames, last);
            r.Go? ==> Built(r.frames)
  {
    var t := l.token;
    if mode == Key {
      if !t.special {
        PushBuilt(frames, t.text);
      } else if t.text == "}" && |frames| > 1 {
        var n := |frames|;
        assert frames[..n - 1][n - 2] == frames[n - 2];
        CanonicalNode(frames[n - 1]);
        PopBuilt(frames);
      } else if t.text != "{" && t.text != "}" && last.Some? && t.text != "[$WIN32]" {
        DropBuilt(frames, last.value);
      }
    } else if !t.special {
      LeafBuilt(frames, t.text);
    }
  }

  /**
   * Whatever the input and however the loop ends, the tree `ReadFrom` leaves
   * behind has canonical children when it started from a built stack.
   */
  lemma {:induction false} RunBuilt(s: string, mode: Mode, frames: seq<Tree>, last: Option<nat>)
    requires Ready(mode, frames, last) && Built(frames)
    ensures KidsCanonical(Run(s, mode, frames, last).tree)
    decreases |s|
  {
    match Next(s)
    case None =>
      CloseBuilt(frames);
    case Some(l) =>
      var r := if mode == Key then OnKey(l.token, frames, last) else OnValue(l.token, frames, last);
      StepBuilt(mode, l, frames, last);
      match r
      case Done(o) =>
        CloseBuilt(frames);
      case Go(m, f, la) =>
        RunBuilt(l.rest, m, f, la);
  }

  /**
   * Reading the text of a node whose children are canonical gives a tree
   * whose children are canonical, whatever the text and the error.
   */
  lemma ParseBuilt(root: Tree, s: string)
    requires KidsCanonical(root)
    ensures KidsCanonical(Parse(root, s).tree)
  {
    RunBuilt(s, Key, [root], None);
  }

  /**
   * Parse, write, parse: the tree read from any text, written out with
   * `WriteTo` and read back into a node with the same name and value and no
   * children, comes back the same and without error.
   */
  lemma ReparseStable(root: Tree, s: string)
    requires KidsCanonical(root)
    ensures var t := Parse(root, s).tree;
            Parse(root.(kids := []), WriteTo(t)) == Outcome(t, None)
  {
    var t := Parse(root, s).tree;
    ParseBuilt(root, s);
    ParseWriteTo(root.(kids := []), t);
    CanonSeqFixed(t.kids);
    assert [] + t.kids == t.kids;
  }

  /** The same for a fresh root, the usual way `ReadFrom` is called. */
  lemma ReparseFresh(name: string, value: string, s: string)
    ensures var t := Parse(Tree(name, value, []), s).tree;
            Parse(Tree(name, value, []), WriteTo(t)) == Outcome(t, None)
  {
    ReparseStable(Tree(name, value, []), s);
  }
}

/**
 * The node tree of keyvalues.go. A KeyValues node is a heap object whose
 * children form a doubly linked sibling list: `child` is the first child,
 * `next`/`prev` link siblings, `parent` points back up. A node is complex
 * exactly when `child != null`.
 *
 * Two ghost fields give the public view: `children` is the sibling list in
 * order, and `Repr` is the node with all its descendants. `ListOK()` says
 * that the linked fields spell out `children`; `Valid()` says that, in
 * addition, the whole subtree is a tree, and `Abs()` then reads it as a Tree.
 * A node's own `next`, `prev` and `parent` belong to its parent's list and
 * are not part of its own `Valid()`.
 */
module Nodes {
  import opened Wrappers
  import opened Text
  import Numbers
  import opened Trees

  class KeyValues {
    var name: string
    var value: string
    var next: KeyValues?
    var prev: KeyValues?
    var parent: KeyValues?
    var child: KeyValues?

    /** The sibling list that starts at `child`, in list order. */
    ghost var children: seq<KeyValues>
    /** This node and all its descendants. */
    ghost var Repr: set<KeyValues>

    /** `&KeyValues{name: name}`: a free node with an empty value and no children. */
    constructor (name: string)
      ensures this.name == name && value == "" && Detached()
      ensures child == null && children == [] && Repr == {this}
      ensures Valid() && Abs() == Tree(name, "", [])
    {
      this.name := name;
      value := "";
      next, prev, parent, child := null, null, null, null;
      children := [];
      Repr := {this};
    }

    /** Not linked into any sibling list. */
    ghost predicate Detached()
      reads this`parent, this`next, this`prev
    {
      parent == null && next == null && prev == null
    }

    /** The list headed by `child` and linked by `next`/`prev` is exactly `children`, each pointing back here. */
    ghost predicate ListOK()
      reads this`child, this`children, children`next, children`prev, children`parent
    {
      && (child == null <==> children == [])
      && (children != [] ==> child == children[0] && children[0].prev == null && children[|children| - 1].next == null)
      && (forall i :: 0 <= i < |children| ==> children[i].parent == this)
      && (forall i {:trigger children[i].next} :: 0 <= i < |children| - 1 ==> children[i].next == children[i + 1])
      && (forall i {:trigger children[i].prev} :: 0 < i < |children| ==> children[i].prev == children[i - 1])
      && Unique(children)
    }

    /** The subtree below this node is a well-linked tree whose nodes all lie in `Repr`. */
    ghost predicate Valid()
      reads this`Repr, Repr`Repr, Repr`children, Repr`child
      reads (Repr - {this})`next, (Repr - {this})`prev, (Repr - {this})`parent
      decreases Repr
    {
      && this in Repr
      && (forall c :: c in children ==> c in Repr && c != this && c.Repr <= Repr && this !in c.Repr)
      && ListOK()
      && (forall c :: c in children ==> c.Valid())
      && Disjoint(children)
    }

    /** The Tree this valid node stands for. */
    ghost function Abs(): (t: Tree)
      requires Valid()
      reads this`Repr, Repr`Repr, Repr`children, Repr`child, Repr`name, Repr`value
      reads (Repr - {this})`next, (Repr - {this})`prev, (Repr - {this})`parent
      ensures t.name == name && t.value == value && |t.kids| == |children|
      ensures t.kids == [] <==> child == null
      decreases Repr, 1
    {
      Tree(name, value, KidsAbs(|children|))
    }

    /** The Trees of the first `k` children. */
    ghost function KidsAbs(k: nat): (ts: seq<Tree>)
      requires Valid() && k <= |children|
      reads this`Repr, Repr`Repr, Repr`children, Repr`child, Repr`name, Repr`value
      reads (Repr - {this})`next, (Repr - {this})`prev, (Repr - {this})`parent
      ensures |ts| == k && forall i :: 0 <= i < k ==> ts[i] == children[i].Abs()
      decreases Repr, 0, k
    {
      if k == 0 then [] else KidsAbs(k - 1) + [children[k - 1].Abs()]
    }

    /**
     * Sets the value of this leaf node. A complex node (or nil) makes the
     * source panic, so the caller must pass a leaf.
     */
    method SetValueString(v: string)
      requires child == null
      modifies this`value
      ensures value == v
      ensures forall d :: String(this, d) == v
    {
      value := v;
    }

    /** Stores `v` in base 10; reading it back with `Int` gives `v` whatever the default. */
    method SetValueInt(v: Numbers.Int64)
      requires child == null
      modifies this`value
      ensures value == Numbers.FormatInt(v)
      ensures forall d :: Int(this, d) == v
    {
      value := Numbers.FormatInt(v);
      Numbers.FormatIntRoundTrip(v);
    }

    /** Stores `v` as "0x" and lower-case hex digits; reading it back with `Uint64` gives `v`. */
    method SetValueUint64(v: Numbers.Uint64)
      requires child == null
      modifies this`value
      ensures value == Numbers.FormatHex(v)
      ensures forall d :: Uint64(this, d) == v
    {
      value := Numbers.FormatHex(v);
      Numbers.FormatHexRoundTrip(v);
    }

    /** Stores "1" or "0"; reading it back with `Bool` gives `v` whatever the default. */
    method SetValueBool(v: bool)
      requires child == null
      modifies this`value
      ensures value == (if v then "1" else "0")
      ensures forall d :: Bool(this, d) == v
    {
      if v {
        value := "1";
      } else {
        value := "0";
      }
      Numbers.BoolTextsParse();
    }

    /**
     * Links `c` in as the last child. A nil `c` is a no-op. The source
     * panics when `c` is already in a hierarchy; it does not guard against
     * appending an ancestor, which would make a cycle, so the model asks
     * for a free valid subtree that shares no node with this one.
     */
    method Append(c: KeyValues?)
      requires Valid()
      requires c != null ==> c.Detached() && c.Valid() && c.Repr !! Repr
      modifies this`child, this`children, this`Repr, Tail()`next, Opt(c)`prev, Opt(c)`parent
      ensures c == null ==> child == old(child) && children == old(children) && Repr == old(Repr)
      ensures c != null ==> children == old(children) + [c] && Repr == old(Repr) + c.Repr
      ensures c != null ==> c.parent == this && c.next == null
      ensures Valid()
      ensures c != null ==> Abs() == old(Abs()).(kids := old(Abs()).kids + [old(c.Abs())])
    {
      if c == null {
        return;
      }
      ghost var cs := children;
      assert c in c.Repr && c !in Repr && this !in c.Repr;
      Link(c);
      Repr := Repr + c.Repr;
      AppendKeepsValid(this, cs, c);
    }

    /** The list surgery of `Append`: walk to the end of the list and link `c` there. */
    method Link(c: KeyValues)
      requires ListOK() && c.Detached() && c !in children
      modifies this`child, this`children, Tail()`next, c`prev, c`parent
      ensures children == old(children) + [c]
      ensures ListOK()
      ensures c.parent == this && c.next == null
    {
      ghost var cs := children;
      var prev: KeyValues? := null;
      var cur := child;
      ghost var i := 0;
      while cur != null
        invariant 0 <= i <= |cs|
        invariant cur == (if i < |cs| then cs[i] else null)
        invariant prev == (if i == 0 then null else cs[i - 1])
        decreases |cs| - i
      {
        prev := cur;
        cur := cur.next;
        i := i + 1;
      }
      assert prev == if cs == [] then null else cs[|cs| - 1];
      if prev == null {
        child := c;
      } else {
        prev.next := c;
      }
      c.prev := prev;
      c.parent := this;
      children := children + [c];
      ListOKAppend(this, cs, c);
    }

    /** Creates a free node called `name`, appends it as the last child, and returns it. */
    method NewSubKey(name: string) returns (ch: KeyValues)
      requires Valid()
      modifies this`child, this`children, this`Repr, Tail()`next
      ensures fresh(ch) && ch.name == name && ch.value == "" && ch.child == null
      ensures children == old(children) + [ch] && Repr == old(Repr) + {ch}
      ensures Valid()
      ensures Abs() == old(Abs()).(kids := old(Abs()).kids + [Tree(name, "", [])])
    {
      ch := new KeyValues(name);
      ghost var t := ch.Abs();
      Append(ch);
      assert old(Abs()).kids + [t] == old(Abs()).kids + [Tree(name, "", [])];
    }

    /**
     * `kv.Each(f)` with a callback that, on its `k`-th call, either leaves
     * the child it is given alone or removes it, as `removes[k]` says (a
     * missing answer keeps the child). The loop reads a child's successor
     * before calling back, so every original child is visited once, in
     * order, even though the callback unlinks it. On a valid node, the node
     * stays valid and its Tree keeps the children not removed, in order.
     */
    method Each(removes: seq<bool>) returns (visited: seq<KeyValues>)
      requires ListOK()
      modifies this`child, this`children, this`Repr, children`next, children`prev, children`parent
      ensures visited == old(children)
      ensures children == Keep(old(children), Decisions(removes, |old(children)|))
      ensures ListOK()
      ensures forall j :: 0 <= j < |old(children)| && Decisions(removes, |old(children)|)[j] ==> old(children)[j].Detached()
      ensures old(Valid()) ==> Valid() && Abs() == old(Abs()).(kids := Keep(old(Abs()).kids, Decisions(removes, |old(children)|)))
    {
      ghost var cs := children;
      ghost var ms := Decisions(removes, |cs|);
      visited := Traverse(removes, cs, ms);
      if old(Valid()) {
        KeepKeepsValid(this, cs, ms, Kept(ms));
        KeepByIndex(old(Abs()).kids, ms, Abs().kids);
      }
    }

    /** The loop of `Each`: visit every original child once, in order, removing the ones `ms` marks. */
    method Traverse(removes: seq<bool>, ghost cs: seq<KeyValues>, ghost ms: seq<bool>) returns (visited: seq<KeyValues>)
      requires ListOK() && cs == children && ms == Decisions(removes, |cs|)
      modifies this`child, this`children, this`Repr, children`next, children`prev, children`parent
      ensures visited == cs && children == Keep(cs, ms) && ListOK()
      ensures Picks(children, cs, Kept(ms))
      ensures Repr == old(Repr) - old(Gone(cs, ms, |cs|))
      ensures forall j :: 0 <= j < |cs| && ms[j] ==> cs[j].Detached()
    {
      ghost var kept: seq<KeyValues> := [];
      visited := [];
      var ch := child;
      var k := 0;
      while ch != null
        invariant Walk(cs, ms, k, kept, visited, ch)
        decreases |cs| - k
      {
        var remove := k < |removes| && removes[k];
        DecisionAt(removes, |cs|, k);
        ch, kept, visited := Step(ch, remove, cs, ms, k, kept, visited);
        k := k + 1;
      }
      // the footprint without the removed subtrees
      Settle(cs, ms, kept, visited, old(Repr) - old(Gone(cs, ms, |cs|)));
    }

    /**
     * The end of the loop of `Each`: every child has been visited, so the
     * list is the original without the removed ones, and the footprint
     * becomes `r`.
     */
    ghost method Settle(cs: seq<KeyValues>, ms: seq<bool>, kept: seq<KeyValues>, visited: seq<KeyValues>, r: set<KeyValues>)
      requires |ms| == |cs| && Walk(cs, ms, |cs|, kept, visited, null)
      modifies this`Repr
      ensures visited == cs && children == Keep(cs, ms) && ListOK()
      ensures Picks(children, cs, Kept(ms))
      ensures Repr == r
      ensures forall j :: 0 <= j < |cs| && ms[j] ==> cs[j].Detached()
    {
      Repr := r;
      EachDone(children, cs, ms, kept);
      KeepIs(cs, ms);
    }

    /**
     * Where the loop in `Each` stands after visiting `k` of the original
     * children `cs`: `visited` are those `k`, the list in place is the ones
     * kept so far followed by the rest of `cs`, and every one the callback
     * removed is detached.
     */
    ghost predicate Walk(cs: seq<KeyValues>, ms: seq<bool>, k: nat, kept: seq<KeyValues>, visited: seq<KeyValues>, ch: KeyValues?)
      reads this`child, this`children, children`next, children`prev, children`parent, cs`next, cs`prev, cs`parent
    {
      && k <= |cs|
      && ch == (if k < |cs| then cs[k] else null)
      && visited == cs[..k]
      && Scanned(children, cs, ms, k, kept)
      && ListOK()
      && forall j :: 0 <= j < k && ms[j] ==> cs[j].Detached()
    }

    /**
     * One turn of the loop in `Each`: remember the next sibling, then let the
     * callback remove `ch` or leave it in place.
     */
    method Step(ch: KeyValues, remove: bool, ghost cs: seq<KeyValues>, ghost ms: seq<bool>, ghost k: nat, ghost kept: seq<KeyValues>, visited: seq<KeyValues>)
      returns (nx: KeyValues?, ghost kept': seq<KeyValues>, visited': seq<KeyValues>)
      requires Walk(cs, ms, k, kept, visited, ch) && k < |ms| && remove == ms[k]
      modifies this`child, this`children, this`Repr, cs`next, cs`prev, cs`parent
      ensures Walk(cs, ms, k + 1, kept', visited', nx)
    {
      ghost var before := children;
      ghost var after, ahead := ch.prev, ch.next;
      Neighbours(this, cs, ms, k, kept);
      nx := Visit(ch, remove, |kept|);
      forall j | 0 <= j < k + 1 && ms[j]
        ensures cs[j].Detached()
      {
        if j < k {
          assert old(cs[j].parent) == null;
          assert cs[j] != ch && cs[j] != after && cs[j] != ahead;
        }
      }
      kept' := if remove then kept else kept + [ch];
      ScannedStep(before, children, cs, ms, k, kept, remove);
      PrefixStep(cs, k);
      visited' := visited + [ch];
    }

    /**
     * Remember the sibling after `ch`, then remove `ch` or leave it in place.
     */
    method Visit(ch: KeyValues, remove: bool, ghost idx: nat) returns (nx: KeyValues?)
      requires ListOK() && idx < |children| && children[idx] == ch
      modifies this`child, this`children, this`Repr, ch`next, ch`prev, ch`parent, NextOf(ch)`prev, PrevOf(ch)`next
      ensures nx == if idx + 1 < |old(children)| then old(children)[idx + 1] else null
      ensures children == if remove then RemoveAt(old(children), idx) else old(children)
      ensures ListOK()
      ensures remove ==> ch.Detached()
      ensures nx != null ==> nx.parent == this
      ensures idx > 0 ==> old(ch.prev) == old(children)[idx - 1] && old(children)[idx - 1].parent == this
    {
      nx := ch.next;
      if idx + 1 < |children| {
        assert nx == children[idx + 1];
      } else {
        assert nx == null;
      }
      if idx > 0 {
        assert ch.prev == children[idx - 1];
      }
      if remove {
        Drop(ch, idx);
      }
    }

    /**
     * The callback removing the `idx`-th child: `ch.Remove()`. On a valid
     * node, the node stays valid and its Tree loses exactly that child.
     */
    method Drop(ch: KeyValues, ghost idx: nat)
      requires ListOK() && idx < |children| && children[idx] == ch
      modifies this`child, this`children, this`Repr, ch`next, ch`prev, ch`parent, NextOf(ch)`prev, PrevOf(ch)`next
      ensures children == RemoveAt(old(children), idx) && ListOK() && ch.Detached()
      ensures old(Valid()) ==> Valid() && Abs() == old(Abs()).(kids := RemoveAt(old(Abs()).kids, idx))
    {
      ghost var cs := children;
      assert ch.parent == this && IndexOf(cs, ch) == idx;
      assert ch.next == (if idx + 1 < |cs| then cs[idx + 1] else null);
      assert ch.prev == (if idx > 0 then cs[idx - 1] else null);
      Remove(ch);
    }

    /** The current last child, as a set (empty when there is none). */
    ghost function Tail(): set<KeyValues>
      reads this`children
    {
      if children == [] then {} else {children[|children| - 1]}
    }
  }

  /** The node that follows `kv` in its sibling list, as a set (empty when there is none). */
  function NextOf(kv: KeyValues?): set<KeyValues>
    reads kv
  {
    if kv == null || kv.next == null then {} else {kv.next}
  }

  /** The node that precedes `kv` in its sibling list, as a set. */
  function PrevOf(kv: KeyValues?): set<KeyValues>
    reads kv
  {
    if kv == null || kv.prev == null then {} else {kv.prev}
  }

  /** The parent of `kv`, as a set. */
  function ParentOf(kv: KeyValues?): set<KeyValues>
    reads kv
  {
    if kv == null || kv.parent == null then {} else {kv.parent}
  }

  /** The position of `x` in `cs`. */
  ghost function IndexOf(cs: seq<KeyValues>, x: KeyValues): (i: nat)
    requires x in cs
    ensures i < |cs| && cs[i] == x
  {
    var i :| 0 <= i < |cs| && cs[i] == x; i
  }

  /** No node occurs twice in `cs`: each one's position is its index. */
  ghost predicate Unique(cs: seq<KeyValues>)
  {
    forall i :: 0 <= i < |cs| ==> IndexOf(cs, cs[i]) == i
  }

  /** `Unique` is pairwise distinctness. */
  lemma UniquePairs(cs: seq<KeyValues>)
    requires Unique(cs)
    ensures forall a, b :: 0 <= a < b < |cs| ==> cs[a] != cs[b]
  {
    forall a, b | 0 <= a < b < |cs|
      ensures cs[a] != cs[b]
    {
      assert IndexOf(cs, cs[a]) == a && IndexOf(cs, cs[b]) == b;
    }
  }

  /** Appending a node that is not there keeps the list free of repeats. */
  lemma UniqueAppend(cs: seq<KeyValues>, c: KeyValues)
    requires Unique(cs) && c !in cs
    ensures Unique(cs + [c])
  {
    UniquePairs(cs);
    var r := cs + [c];
    forall i | 0 <= i < |r|
      ensures IndexOf(r, r[i]) == i
    {
      IndexOfDistinct(r, i);
    }
  }

  /** Dropping an element keeps the list free of repeats. */
  lemma UniqueRemoveAt(cs: seq<KeyValues>, k: nat)
    requires Unique(cs) && k < |cs|
    ensures Unique(RemoveAt(cs, k))
  {
    UniquePairs(cs);
    var r := RemoveAt(cs, k);
    forall a, b | 0 <= a < b < |r|
      ensures r[a] != r[b]
    {
      var a', b' := if a < k then a else a + 1, if b < k then b else b + 1;
      assert r[a] == cs[a'] && r[b] == cs[b'];
    }
    forall i | 0 <= i < |r|
      ensures IndexOf(r, r[i]) == i
    {
      IndexOfDistinct(r, i);
    }
  }

  /** In a list without repeats, the position of the `i`th element is `i`. */
  lemma IndexOfDistinct(cs: seq<KeyValues>, i: nat)
    requires i < |cs| && forall a, b :: 0 <= a < b < |cs| ==> cs[a] != cs[b]
    ensures IndexOf(cs, cs[i]) == i
  {
    var at := IndexOf(cs, cs[i]);
    if at != i {
      assert false;
    }
  }

  /**
   * `kv.Remove()`: unlinks `kv` from its parent's list, splicing its
   * neighbours together, and leaves it free. A nil `kv` is a no-op, and so
   * is a free one. The list `kv` sits in must be well formed, and a node
   * without a parent has no siblings (nodes only gain siblings by `Append`).
   * When the parent was a valid tree it stays one, minus `kv`'s subtree,
   * and the removed subtree keeps its own shape and contents.
   */
  method Remove(kv: KeyValues?)
    requires kv != null && kv.parent != null ==> kv.parent.ListOK() && kv in kv.parent.children
    requires kv != null && kv.parent == null ==> kv.next == null && kv.prev == null
    modifies Opt(kv)`next, Opt(kv)`prev, Opt(kv)`parent, NextOf(kv)`prev, PrevOf(kv)`next
    modifies ParentOf(kv)`child, ParentOf(kv)`children, ParentOf(kv)`Repr
    ensures kv != null ==> kv.Detached()
    ensures kv != null && old(kv.parent) != null ==>
      var p, i := old(kv.parent), IndexOf(old(kv.parent.children), kv);
      && p.children == RemoveAt(old(p.children), i)
      && p.ListOK() && p.Repr == old(p.Repr) - old(kv.Repr)
    ensures kv != null && old(kv.parent) != null && old(kv.parent.Valid()) ==>
      var p, i := old(kv.parent), IndexOf(old(kv.parent.children), kv);
      && p.Valid() && p.Abs() == old(p.Abs()).(kids := RemoveAt(old(p.Abs()).kids, i))
      && kv.Valid() && kv.Abs() == old(kv.Abs())
  {
    if kv == null {
      return;
    }
    ghost var p := kv.parent;
    ghost var cs := if p == null then [] else p.children;
    ghost var i := if p == null then 0 else IndexOf(cs, kv);
    assert p != null ==> kv.next == (if i + 1 < |cs| then cs[i + 1] else null) && kv.prev == (if i > 0 then cs[i - 1] else null);
    Splice(kv);
    if p != null {
      Unlist(p, RemoveAt(cs, i), p.Repr - kv.Repr);
      ListOKRemove(p, cs, i);
      if old(p.Valid()) {
        RemoveKeepsValid(p, cs, i);
      }
    }
  }

  /** The ghost part of `Remove` on the parent: its list and its footprint lose the removed node. */
  ghost method Unlist(p: KeyValues, cs: seq<KeyValues>, r: set<KeyValues>)
    modifies p`children, p`Repr
    ensures p.children == cs && p.Repr == r
  {
    p.children := cs;
    p.Repr := r;
  }

  /**
   * The link updates of `Remove`: `kv`'s neighbours are linked to each
   * other, its parent's first-child link moves past it, and its own links
   * are cleared. Each field named in `modifies` gets exactly the value below.
   */
  method Splice(kv: KeyValues)
    requires kv.next != kv && kv.prev != kv && (kv.next == kv.prev ==> kv.next == null)
    modifies kv`next, kv`prev, kv`parent, NextOf(kv)`prev, PrevOf(kv)`next, ParentOf(kv)`child
    ensures kv.Detached()
    ensures old(kv.next) != null ==> old(kv.next).prev == old(kv.prev)
    ensures old(kv.prev) != null ==> old(kv.prev).next == old(kv.next)
    ensures old(kv.parent) != null ==>
      old(kv.parent).child == if old(kv.parent.child) == kv then old(kv.next) else old(kv.parent.child)
  {
    if kv.next != null {
      kv.next.prev := kv.prev;
    }
    if kv.prev != null {
      kv.prev.next := kv.next;
    }
    if kv.parent != null && kv.parent.child == kv {
      kv.parent.child := kv.next;
    }
    kv.parent, kv.next, kv.prev := null, null, null;
  }

  /**
   * The callback's answers for `n` visited children: the `i`-th child is
   * removed when `removes[i]` is true; missing answers keep the child.
   */
  function Decisions(removes: seq<bool>, n: nat): (ms: seq<bool>)
    ensures |ms| == n && forall i :: 0 <= i < n ==> (ms[i] <==> i < |removes| && removes[i])
  {
    seq(n, i requires 0 <= i < n => i < |removes| && removes[i])
  }

  /** `o` as a set: empty for nil. Used to name fields of a possibly nil node in frames. */
  function Opt(o: KeyValues?): set<KeyValues> {
    if o == null then {} else {o}
  }

  /**
   * `kv.SubKey(name)`: the first child, in list order, whose name equals
   * `name` under case folding; nil when there is none or `kv` is nil.
   */
  method SubKey(kv: KeyValues?, name: string) returns (r: KeyValues?)
    requires kv != null ==> kv.ListOK()
    ensures kv == null ==> r == null
    ensures kv != null ==> (r == null <==> forall j :: 0 <= j < |kv.children| ==> !EqualFold(kv.children[j].name, name))
    ensures r != null ==>
      exists j :: 0 <= j < |kv.children| && kv.children[j] == r && EqualFold(r.name, name) &&
        forall k :: 0 <= k < j ==> !EqualFold(kv.children[k].name, name)
  {
    if kv == null {
      return null;
    }
    ghost var i := 0;
    var ch := kv.child;
    while ch != null
      invariant 0 <= i <= |kv.children|
      invariant ch == (if i < |kv.children| then kv.children[i] else null)
      invariant forall k :: 0 <= k < i ==> !EqualFold(kv.children[k].name, name)
      decreases |kv.children| - i
    {
      if EqualFold(ch.name, name) {
        return ch;
      }
      ch := ch.next;
      i := i + 1;
    }
    return null;
  }

  /**
   * `kv.String(def)`: the value of an existing leaf, and `def` for nil or a
   * complex node.
   */
  function String(kv: KeyValues?, def: string): (r: string)
    reads kv
    ensures kv == null || kv.child != null ==> r == def
    ensures kv != null && kv.child == null ==> r == kv.value
  {
    if kv == null || kv.child != null then def else kv.value
  }

  /**
   * `kv.Int(def)`: the value of an existing leaf read as a signed 64-bit
   * integer in base 0 (prefix-selected) notation, and `def` for nil, a
   * complex node or a value that does not parse.
   */
  function Int(kv: KeyValues?, def: Numbers.Int64): (r: Numbers.Int64)
    reads kv
    ensures kv == null || kv.child != null ==> r == def
    ensures kv != null && kv.child == null && Numbers.ParseInt(kv.value).None? ==> r == def
    ensures kv != null && kv.child == null && Numbers.ParseInt(kv.value).Some? ==> r == Numbers.ParseInt(kv.value).value
  {
    if kv == null || kv.child != null then def
    else match Numbers.ParseInt(kv.value)
      case Some(i) => i
      case None => def
  }

  /** `kv.Uint64(def)`: as `Int`, for an unsigned 64-bit integer. */
  function Uint64(kv: KeyValues?, def: Numbers.Uint64): (r: Numbers.Uint64)
    reads kv
    ensures kv == null || kv.child != null ==> r == def
    ensures kv != null && kv.child == null && Numbers.ParseUint(kv.value).None? ==> r == def
    ensures kv != null && kv.child == null && Numbers.ParseUint(kv.value).Some? ==> r == Numbers.ParseUint(kv.value).value
  {
    if kv == null || kv.child != null then def
    else match Numbers.ParseUint(kv.value)
      case Some(i) => i
      case None => def
  }

  /**
   * `kv.Bool(def)`: false exactly when the node's integer value is 0, where
   * a node with no integer value (nil, complex, unparseable) counts as `def`.
   */
  function Bool(kv: KeyValues?, def: bool): (r: bool)
    reads kv
    ensures kv == null || kv.child != null || Numbers.ParseInt(kv.value).None? ==> r == def
    ensures kv != null && kv.child == null && Numbers.ParseInt(kv.value).Some? ==> (r <==> Numbers.ParseInt(kv.value).value != 0)
  {
    if def then Int(kv, 1) != 0 else Int(kv, 0) != 0
  }

  /** The footprints of `cs` are pairwise disjoint. */
  ghost predicate Disjoint(cs: seq<KeyValues>)
    reads cs`Repr
  {
    forall i, j :: 0 <= i < j < |cs| ==> cs[i].Repr !! cs[j].Repr
  }


  /**
   * A valid subtree stays valid, and keeps its Tree, across any change that
   * leaves alone the fields its validity reads: everything of its nodes
   * except the root's own sibling and parent links.
   */
  twostate lemma ValidStable(new k: KeyValues)
    requires old(allocated(k))
    requires old(k.Valid())
    requires forall o :: o in old(k.Repr) ==> unchanged(o`Repr, o`children, o`child, o`name, o`value)
    requires forall o :: o in old(k.Repr) && o != k ==> unchanged(o`next, o`prev, o`parent)
    ensures k.Valid() && k.Abs() == old(k.Abs())
  {
  }

  /** Linking `c` after the last child extends a well-formed sibling list by `c`. */
  twostate lemma ListOKAppend(new p: KeyValues, new cs: seq<KeyValues>, new c: KeyValues)
    requires old(allocated(p)) && old(allocated(cs)) && old(allocated(c))
    requires cs == old(p.children) && old(p.ListOK()) && c !in cs
    requires p.children == cs + [c]
    requires p.child == if cs == [] then c else old(p.child)
    requires c.parent == p && c.next == null
    requires c.prev == if cs == [] then null else cs[|cs| - 1]
    requires forall j {:trigger cs[j].prev} :: 0 <= j < |cs| ==> cs[j].prev == old(cs[j].prev)
    requires forall j {:trigger cs[j].parent} :: 0 <= j < |cs| ==> cs[j].parent == old(cs[j].parent)
    requires forall j {:trigger cs[j].next} :: 0 <= j < |cs| - 1 ==> cs[j].next == old(cs[j].next)
    requires cs != [] ==> cs[|cs| - 1].next == c
    ensures p.ListOK()
  {
    UniqueAppend(cs, c);
  }

  /** Appending a disjoint valid subtree `c` to a valid node keeps it valid and appends `c`'s Tree. */
  twostate lemma AppendKeepsValid(new p: KeyValues, new cs: seq<KeyValues>, new c: KeyValues)
    requires old(allocated(p)) && old(allocated(cs)) && old(allocated(c))
    requires old(p.Valid()) && cs == old(p.children)
    requires old(c.Valid()) && old(c.Repr) !! old(p.Repr)
    requires p.ListOK() && p.children == cs + [c] && p.Repr == old(p.Repr) + old(c.Repr)
    requires unchanged(p`name, p`value)
    requires forall o: KeyValues :: o in old(p.Repr) + old(c.Repr) && o != p ==> unchanged(o`Repr, o`children, o`child, o`name, o`value)
    requires forall o: KeyValues :: o in old(p.Repr) + old(c.Repr) && o != p && o !in cs && o != c ==> unchanged(o`next, o`prev, o`parent)
    ensures p.Valid()
    ensures p.Abs() == old(p.Abs()).(kids := old(p.Abs()).kids + [old(c.Abs())])
  {
    AppendKidsStable(p, cs, c);
    AppendDisjoint(p, cs, c);
    assert p.Valid();
    AppendAbs(p, cs, c);
  }

  twostate lemma AppendKidsStable(new p: KeyValues, new cs: seq<KeyValues>, new c: KeyValues)
    requires old(allocated(p)) && old(allocated(cs)) && old(allocated(c))
    requires old(p.Valid()) && cs == old(p.children)
    requires old(c.Valid()) && old(c.Repr) !! old(p.Repr)
    requires p.ListOK() && p.children == cs + [c] && p.Repr == old(p.Repr) + old(c.Repr)
    requires unchanged(p`name, p`value)
    requires forall o: KeyValues :: o in old(p.Repr) + old(c.Repr) && o != p ==> unchanged(o`Repr, o`children, o`child, o`name, o`value)
    requires forall o: KeyValues :: o in old(p.Repr) + old(c.Repr) && o != p && o !in cs && o != c ==> unchanged(o`next, o`prev, o`parent)
    ensures forall j :: 0 <= j < |cs| ==> cs[j].Valid() && cs[j].Abs() == old(cs[j].Abs())
    ensures c.Valid() && c.Abs() == old(c.Abs())
  {
    forall j | 0 <= j < |cs|
      ensures cs[j].Valid() && cs[j].Abs() == old(cs[j].Abs())
    {
      ValidStable(cs[j]);
    }
    ValidStable(c);
  }

  twostate lemma AppendDisjoint(new p: KeyValues, new cs: seq<KeyValues>, new c: KeyValues)
    requires old(allocated(p)) && old(allocated(cs)) && old(allocated(c))
    requires old(p.Valid()) && cs == old(p.children)
    requires old(c.Valid()) && old(c.Repr) !! old(p.Repr)
    requires p.ListOK() && p.children == cs + [c] && p.Repr == old(p.Repr) + old(c.Repr)
    requires unchanged(p`name, p`value)
    requires forall o: KeyValues :: o in old(p.Repr) + old(c.Repr) && o != p ==> unchanged(o`Repr, o`children, o`child, o`name, o`value)
    requires forall o: KeyValues :: o in old(p.Repr) + old(c.Repr) && o != p && o !in cs && o != c ==> unchanged(o`next, o`prev, o`parent)
    ensures forall k :: k in p.children ==> k.Repr <= p.Repr && p !in k.Repr
    ensures Disjoint(p.children)
  {
    assert forall j :: 0 <= j < |cs| ==> cs[j].Repr == old(cs[j].Repr) && cs[j].Repr <= old(p.Repr);
    assert c.Repr == old(c.Repr);
    forall i, j | 0 <= i < j < |p.children|
      ensures p.children[i].Repr !! p.children[j].Repr
    {
      if j < |cs| {
        assert old(p.children[i].Repr !! p.children[j].Repr);
      }
    }
  }

  twostate lemma AppendAbs(new p: KeyValues, new cs: seq<KeyValues>, new c: KeyValues)
    requires old(allocated(p)) && old(allocated(cs)) && old(allocated(c))
    requires old(p.Valid()) && old(c.Valid()) && cs == old(p.children)
    requires p.Valid() && p.children == cs + [c] && unchanged(p`name, p`value)
    requires forall j :: 0 <= j < |cs| ==> cs[j].Abs() == old(cs[j].Abs())
    requires c.Abs() == old(c.Abs())
    ensures p.Abs() == old(p.Abs()).(kids := old(p.Abs()).kids + [old(c.Abs())])
  {
    var before, after := old(p.Abs()), p.Abs();
    AbsKids(p);
    assert forall i :: 0 <= i < |cs| ==> before.kids[i] == old(cs[i].Abs());
    var r := before.kids + [old(c.Abs())];
    assert |after.kids| == |r|;
    forall i | 0 <= i < |r|
      ensures after.kids[i] == r[i]
    {
      assert after.kids[i] == p.children[i].Abs();
      if i == |cs| {
        assert p.children[i] == c;
      } else {
        assert p.children[i] == cs[i];
      }
    }
    assert after.kids == r;
  }

  /** The kids of a node's Tree are its children's Trees. */
  lemma AbsKids(p: KeyValues)
    requires p.Valid()
    ensures forall i :: 0 <= i < |p.children| ==> p.Abs().kids[i] == p.children[i].Abs()
  {
  }

  /** The `i`th child and its neighbours in `cs`. */
  function Around(cs: seq<KeyValues>, i: nat): set<KeyValues>
    requires i < |cs|
  {
    {cs[i]} + (if i > 0 then {cs[i - 1]} else {}) + (if i + 1 < |cs| then {cs[i + 1]} else {})
  }

  /** Unlinking the `i`th child from a well-formed sibling list leaves a well-formed list without it. */
  twostate lemma ListOKRemove(new p: KeyValues, new cs: seq<KeyValues>, new i: nat)
    requires old(allocated(p)) && old(allocated(cs))
    requires cs == old(p.children) && old(p.ListOK()) && i < |cs|
    requires p.children == RemoveAt(cs, i)
    requires p.child == if i == 0 then old(cs[i].next) else old(p.child)
    requires forall o: KeyValues :: o in cs && o !in Around(cs, i) ==> unchanged(o`next, o`prev, o`parent)
    requires i > 0 ==> cs[i - 1].next == old(cs[i].next) && cs[i - 1].prev == old(cs[i - 1].prev) && cs[i - 1].parent == old(cs[i - 1].parent)
    requires i + 1 < |cs| ==> cs[i + 1].prev == old(cs[i].prev) && cs[i + 1].next == old(cs[i + 1].next) && cs[i + 1].parent == old(cs[i + 1].parent)
    ensures p.ListOK()
  {
    AroundFrame(p, cs, i);
    RemoveEnds(p, cs, i);
    RemoveNexts(p, cs, i);
    RemovePrevs(p, cs, i);
    RemoveParents(p, cs, i);
    UniqueRemoveAt(cs, i);
  }

  /** Nodes of `cs` outside `Around(cs, i)`, named by their index. */
  twostate lemma AroundFrame(new p: KeyValues, new cs: seq<KeyValues>, new i: nat)
    requires old(allocated(p)) && old(allocated(cs)) && i < |cs|
    requires forall o: KeyValues :: o in cs && o !in Around(cs, i) ==> unchanged(o`next, o`prev, o`parent)
    requires cs == old(p.children) && old(p.ListOK())
    ensures forall j {:trigger cs[j].next} :: 0 <= j < |cs| && j != i && j != i - 1 && j != i + 1 ==> cs[j].next == old(cs[j].next)
    ensures forall j {:trigger cs[j].prev} :: 0 <= j < |cs| && j != i && j != i - 1 && j != i + 1 ==> cs[j].prev == old(cs[j].prev)
    ensures forall j {:trigger cs[j].parent} :: 0 <= j < |cs| && j != i && j != i - 1 && j != i + 1 ==> cs[j].parent == old(cs[j].parent)
  {
    forall j | 0 <= j < |cs| && j != i && j != i - 1 && j != i + 1
      ensures cs[j].next == old(cs[j].next) && cs[j].prev == old(cs[j].prev) && cs[j].parent == old(cs[j].parent)
    {
      assert cs[j] in cs && cs[j] !in Around(cs, i);
    }
  }

  /** The head link and the two ends of the list without the `i`th child. */
  twostate lemma RemoveEnds(new p: KeyValues, new cs: seq<KeyValues>, new i: nat)
    requires old(allocated(p)) && old(allocated(cs))
    requires cs == old(p.children) && old(p.ListOK()) && i < |cs|
    requires p.children == RemoveAt(cs, i)
    requires p.child == if i == 0 then old(cs[i].next) else old(p.child)
    requires i > 0 ==> cs[i - 1].next == old(cs[i].next) && cs[i - 1].prev == old(cs[i - 1].prev)
    requires i + 1 < |cs| ==> cs[i + 1].prev == old(cs[i].prev) && cs[i + 1].next == old(cs[i + 1].next)
    requires forall j {:trigger cs[j].next} :: 0 <= j < |cs| && j != i && j != i - 1 && j != i + 1 ==> cs[j].next == old(cs[j].next)
    requires forall j {:trigger cs[j].prev} :: 0 <= j < |cs| && j != i && j != i - 1 && j != i + 1 ==> cs[j].prev == old(cs[j].prev)
    ensures p.child == null <==> p.children == []
    ensures p.children != [] ==> p.child == p.children[0] && p.children[0].prev == null && p.children[|p.children| - 1].next == null
  {
    var r := p.children;
    if r != [] {
      if i == 0 {
        assert r[0] == cs[1] && old(cs[0].next) == cs[1];
      } else {
        assert r[0] == cs[0];
      }
      if i == |cs| - 1 {
        assert r[|r| - 1] == cs[i - 1];
      } else {
        var last := |r| - 1;
        assert i <= last && last + 1 == |cs| - 1;
        assert r[last] == cs[last + 1];
      }
    }
  }

  /** The `next` links of the list without the `i`th child. */
  twostate lemma RemoveNexts(new p: KeyValues, new cs: seq<KeyValues>, new i: nat)
    requires old(allocated(p)) && old(allocated(cs))
    requires cs == old(p.children) && old(p.ListOK()) && i < |cs|
    requires p.children == RemoveAt(cs, i)
    requires forall j {:trigger cs[j].next} :: 0 <= j < |cs| && j != i && j != i - 1 ==> cs[j].next == old(cs[j].next)
    requires i > 0 ==> cs[i - 1].next == old(cs[i].next)
    ensures forall k :: 0 <= k < |p.children| - 1 ==> p.children[k].next == p.children[k + 1]
  {
    var r := p.children;
    forall k | 0 <= k < |r| - 1
      ensures r[k].next == r[k + 1]
    {
      if k + 1 < i {
        assert r[k] == cs[k] && r[k + 1] == cs[k + 1] && old(cs[k].next) == cs[k + 1];
      } else if k + 1 == i {
        assert r[k] == cs[k] && r[k + 1] == cs[i + 1] && old(cs[i].next) == cs[i + 1];
      } else {
        assert r[k] == cs[k + 1] && r[k + 1] == cs[k + 2] && old(cs[k + 1].next) == cs[k + 2];
      }
    }
  }

  /** The `prev` links of the list without the `i`th child. */
  twostate lemma RemovePrevs(new p: KeyValues, new cs: seq<KeyValues>, new i: nat)
    requires old(allocated(p)) && old(allocated(cs))
    requires cs == old(p.children) && old(p.ListOK()) && i < |cs|
    requires p.children == RemoveAt(cs, i)
    requires forall j {:trigger cs[j].prev} :: 0 <= j < |cs| && j != i && j != i + 1 ==> cs[j].prev == old(cs[j].prev)
    requires i + 1 < |cs| ==> cs[i + 1].prev == old(cs[i].prev)
    ensures forall k :: 0 < k < |p.children| ==> p.children[k].prev == p.children[k - 1]
  {
    var r := p.children;
    forall k | 0 < k < |r|
      ensures r[k].prev == r[k - 1]
    {
      if k < i {
        assert r[k] == cs[k] && r[k - 1] == cs[k - 1] && old(cs[k].prev) == cs[k - 1];
      } else if k == i {
        assert r[k] == cs[i + 1] && r[k - 1] == cs[i - 1] && old(cs[i].prev) == cs[i - 1];
      } else {
        assert r[k] == cs[k + 1] && r[k - 1] == cs[k] && old(cs[k + 1].prev) == cs[k];
      }
    }
  }

  /** The parent links of the list without the `i`th child. */
  twostate lemma RemoveParents(new p: KeyValues, new cs: seq<KeyValues>, new i: nat)
    requires old(allocated(p)) && old(allocated(cs))
    requires cs == old(p.children) && old(p.ListOK()) && i < |cs|
    requires p.children == RemoveAt(cs, i)
    requires forall j {:trigger cs[j].parent} :: 0 <= j < |cs| && j != i ==> cs[j].parent == old(cs[j].parent)
    ensures forall k :: 0 <= k < |p.children| ==> p.children[k].parent == p
  {
    var r := p.children;
    forall k | 0 <= k < |r|
      ensures r[k].parent == p
    {
      if k < i {
        assert r[k] == cs[k];
      } else {
        assert r[k] == cs[k + 1];
      }
    }
  }

  /** Unlinking the `i`th child of a valid node keeps it valid, and both Trees as they were. */
  twostate lemma RemoveKeepsValid(new p: KeyValues, new cs: seq<KeyValues>, new i: nat)
    requires old(allocated(p)) && old(allocated(cs))
    requires old(p.Valid()) && cs == old(p.children) && i < |cs|
    requires p.ListOK() && p.children == RemoveAt(cs, i) && p.Repr == old(p.Repr) - old(cs[i].Repr)
    requires unchanged(p`name, p`value)
    requires forall o: KeyValues :: o in old(p.Repr) && o != p ==> unchanged(o`Repr, o`children, o`child, o`name, o`value)
    requires forall o: KeyValues :: o in old(p.Repr) && o !in Around(cs, i) ==> unchanged(o`next, o`prev, o`parent)
    ensures p.Valid() && p.Abs() == old(p.Abs()).(kids := RemoveAt(old(p.Abs()).kids, i))
    ensures cs[i].Valid() && cs[i].Abs() == old(cs[i].Abs())
  {
    RemoveKidsStable(p, cs, i);
    RemoveDisjoint(p, cs, i);
    forall c | c in p.children
      ensures c.Valid() && c in p.Repr && c != p
    {
      var k :| 0 <= k < |p.children| && p.children[k] == c;
      assert c == cs[if k < i then k else k + 1];
    }
    assert p.Valid();
    RemoveAbs(p, cs, i);
  }

  twostate lemma RemoveKidsStable(new p: KeyValues, new cs: seq<KeyValues>, new i: nat)
    requires old(allocated(p)) && old(allocated(cs))
    requires old(p.Valid()) && cs == old(p.children) && i < |cs|
    requires p.ListOK() && p.children == RemoveAt(cs, i) && p.Repr == old(p.Repr) - old(cs[i].Repr)
    requires unchanged(p`name, p`value)
    requires forall o: KeyValues :: o in old(p.Repr) && o != p ==> unchanged(o`Repr, o`children, o`child, o`name, o`value)
    requires forall o: KeyValues :: o in old(p.Repr) && o !in Around(cs, i) ==> unchanged(o`next, o`prev, o`parent)
    ensures forall j :: 0 <= j < |cs| ==> cs[j].Valid() && cs[j].Abs() == old(cs[j].Abs())
  {
    forall j | 0 <= j < |cs|
      ensures cs[j].Valid() && cs[j].Abs() == old(cs[j].Abs())
    {
      KidStable(p, cs, Around(cs, i), j);
    }
  }

  /** One child of `RemoveKidsStable`: none of its nodes but itself is next to the one removed. */
  twostate lemma KidStable(new p: KeyValues, new cs: seq<KeyValues>, new moved: set<KeyValues>, new j: nat)
    requires old(allocated(p)) && old(allocated(cs))
    requires old(p.Valid()) && cs == old(p.children) && j < |cs|
    requires forall o :: o in moved ==> o in cs
    requires forall o: KeyValues :: o in old(p.Repr) && o != p ==> unchanged(o`Repr, o`children, o`child, o`name, o`value)
    requires forall o: KeyValues :: o in old(p.Repr) && o !in moved ==> unchanged(o`next, o`prev, o`parent)
    ensures cs[j].Valid() && cs[j].Abs() == old(cs[j].Abs())
  {
    KidApart(p, cs, j);
    assert old(cs[j].Repr <= p.Repr) && p !in old(cs[j].Repr);
    forall o | o in old(cs[j].Repr) && o != cs[j]
      ensures o !in moved
    {
      assert o !in cs;
    }
    ValidStable(cs[j]);
  }

  /** In a valid node, no child lies inside the footprint of another. */
  twostate lemma KidApart(new p: KeyValues, new cs: seq<KeyValues>, new j: nat)
    requires old(allocated(p)) && old(allocated(cs))
    requires old(p.Valid()) && cs == old(p.children) && j < |cs|
    ensures forall k :: 0 <= k < |cs| && k != j ==> cs[k] !in old(cs[j].Repr)
  {
    forall k | 0 <= k < |cs| && k != j
      ensures cs[k] !in old(cs[j].Repr)
    {
      if k < j {
        assert old(cs[k].Valid() && cs[k] in cs[k].Repr && cs[k].Repr !! cs[j].Repr);
      } else {
        assert old(cs[k].Valid() && cs[k] in cs[k].Repr && cs[j].Repr !! cs[k].Repr);
      }
    }
  }

  twostate lemma RemoveDisjoint(new p: KeyValues, new cs: seq<KeyValues>, new i: nat)
    requires old(allocated(p)) && old(allocated(cs))
    requires old(p.Valid()) && cs == old(p.children) && i < |cs|
    requires p.children == RemoveAt(cs, i) && p.Repr == old(p.Repr) - old(cs[i].Repr)
    requires forall o: KeyValues :: o in old(p.Repr) && o != p ==> unchanged(o`Repr)
    ensures forall k :: k in p.children ==> k.Repr <= p.Repr && p !in k.Repr
    ensures Disjoint(p.children)
  {
    assert forall j :: 0 <= j < |cs| ==> cs[j].Repr == old(cs[j].Repr) && cs[j].Repr <= old(p.Repr);
    forall j | 0 <= j < |cs| && j != i
      ensures cs[j].Repr !! cs[i].Repr
    {
      if j < i {
        assert old(cs[j].Repr !! cs[i].Repr);
      } else {
        assert old(cs[i].Repr !! cs[j].Repr);
      }
    }
    forall a, b | 0 <= a < b < |p.children|
      ensures p.children[a].Repr !! p.children[b].Repr
    {
      var a', b' := if a < i then a else a + 1, if b < i then b else b + 1;
      assert p.children[a] == cs[a'] && p.children[b] == cs[b'];
      assert old(cs[a'].Repr !! cs[b'].Repr);
    }
  }

  twostate lemma RemoveAbs(new p: KeyValues, new cs: seq<KeyValues>, new i: nat)
    requires old(allocated(p)) && old(allocated(cs))
    requires old(p.Valid()) && cs == old(p.children) && i < |cs|
    requires p.Valid() && p.children == RemoveAt(cs, i) && unchanged(p`name, p`value)
    requires forall j :: 0 <= j < |cs| && j != i ==> cs[j].Valid() && cs[j].Abs() == old(cs[j].Abs())
    ensures p.Abs() == old(p.Abs()).(kids := RemoveAt(old(p.Abs()).kids, i))
  {
    var before, after := old(p.Abs()), p.Abs();
    AbsKids(p);
    assert forall j :: 0 <= j < |cs| ==> before.kids[j] == old(cs[j].Abs());
    var r := RemoveAt(before.kids, i);
    assert |after.kids| == |r|;
    forall j | 0 <= j < |r|
      ensures after.kids[j] == r[j]
    {
      if j < i {
        assert p.children[j] == cs[j];
      } else {
        assert p.children[j] == cs[j + 1];
      }
    }
    assert after.kids == r;
  }

  /** The footprints of the children among the first `k` of `cs` that `ms` marks. */
  ghost function Gone(cs: seq<KeyValues>, ms: seq<bool>, k: nat): (g: set<KeyValues>)
    requires |ms| == |cs| && k <= |cs|
    reads cs`Repr
    ensures forall j :: 0 <= j < k && ms[j] ==> cs[j].Repr <= g
    decreases k
  {
    if k == 0 then {} else Gone(cs, ms, k - 1) + (if ms[k - 1] then cs[k - 1].Repr else {})
  }

  /**
   * Unlinking the children `ms` marks from a valid node, and taking their
   * subtrees out of its footprint, keeps it valid, with the Trees of the
   * children it keeps, in order.
   */
  twostate lemma KeepKeepsValid(new p: KeyValues, new cs: seq<KeyValues>, new ms: seq<bool>, new at: seq<nat>)
    requires old(allocated(p)) && old(allocated(cs))
    requires old(p.Valid()) && cs == old(p.children) && |ms| == |cs|
    requires forall i :: 0 <= i < |at| ==> at[i] < |ms| && !ms[at[i]]
    requires forall a, b :: 0 <= a < b < |at| ==> at[a] < at[b]
    requires p.ListOK() && Picks(p.children, cs, at) && p.Repr == old(p.Repr) - old(Gone(cs, ms, |cs|))
    requires unchanged(p`name, p`value)
    requires forall o: KeyValues :: o in old(p.Repr) && o != p ==> unchanged(o`Repr, o`children, o`child, o`name, o`value)
    requires forall o: KeyValues :: o in old(p.Repr) && o !in cs ==> unchanged(o`next, o`prev, o`parent)
    ensures p.Valid() && p.Abs().name == old(p.Abs()).name && p.Abs().value == old(p.Abs()).value
    ensures Picks(p.Abs().kids, old(p.Abs()).kids, at)
  {
    KidsStable(p, cs);
    KeepValid(p, cs, ms, at);
    KeepAbs(p, cs, at);
  }

  /** The validity part of `KeepKeepsValid`, once every original child is known to be valid with its footprint unchanged. */
  twostate lemma KeepValid(new p: KeyValues, new cs: seq<KeyValues>, new ms: seq<bool>, new at: seq<nat>)
    requires old(allocated(p)) && old(allocated(cs))
    requires old(p.Valid()) && cs == old(p.children) && |ms| == |cs|
    requires forall i :: 0 <= i < |at| ==> at[i] < |ms| && !ms[at[i]]
    requires forall a, b :: 0 <= a < b < |at| ==> at[a] < at[b]
    requires p.ListOK() && Picks(p.children, cs, at) && p.Repr == old(p.Repr) - old(Gone(cs, ms, |cs|))
    requires forall j :: 0 <= j < |cs| ==> cs[j].Valid() && cs[j].Repr == old(cs[j].Repr)
    ensures p.Valid()
  {
    KeepInside(p, cs, ms, at);
    KeepDisjoint(p, cs, at);
  }

  /** The original children of a node keep their validity and their Trees while only sibling links change. */
  twostate lemma KidsStable(new p: KeyValues, new cs: seq<KeyValues>)
    requires old(allocated(p)) && old(allocated(cs))
    requires old(p.Valid()) && cs == old(p.children)
    requires forall o: KeyValues :: o in old(p.Repr) && o != p ==> unchanged(o`Repr, o`children, o`child, o`name, o`value)
    requires forall o: KeyValues :: o in old(p.Repr) && o !in cs ==> unchanged(o`next, o`prev, o`parent)
    ensures forall j :: 0 <= j < |cs| ==> cs[j].Valid() && cs[j].Abs() == old(cs[j].Abs())
  {
    forall j | 0 <= j < |cs|
      ensures cs[j].Valid() && cs[j].Abs() == old(cs[j].Abs())
    {
      KidStable(p, cs, set x | x in cs :: x, j);
    }
  }

  /** The children kept lie inside the footprint left, apart from their parent. */
  twostate lemma KeepInside(new p: KeyValues, new cs: seq<KeyValues>, new ms: seq<bool>, new at: seq<nat>)
    requires old(allocated(p)) && old(allocated(cs))
    requires old(p.Valid()) && cs == old(p.children) && |ms| == |cs|
    requires forall i :: 0 <= i < |at| ==> at[i] < |ms| && !ms[at[i]]
    requires Picks(p.children, cs, at)
    requires p.Repr == old(p.Repr) - old(Gone(cs, ms, |cs|))
    requires forall j :: 0 <= j < |cs| ==> cs[j].Valid() && cs[j].Repr == old(cs[j].Repr)
    ensures p in p.Repr
    ensures forall c :: c in p.children ==> c in p.Repr && c != p && c.Repr <= p.Repr && p !in c.Repr
  {
    forall j | 0 <= j < |cs|
      ensures p !in old(cs[j].Repr) && old(cs[j].Repr) <= old(p.Repr)
    {
      assert old(cs[j] in p.children);
    }
    ParentNotGone(p, cs, ms, |cs|);
    KeptNotGone(p, cs, ms, |cs|);
    forall c | c in p.children
      ensures c in p.Repr && c != p && c.Repr <= p.Repr && p !in c.Repr
    {
      var i :| 0 <= i < |p.children| && p.children[i] == c;
      var j := at[i];
      assert c == cs[j] && !ms[j];
      assert c in c.Repr;
    }
  }

  /** The node itself is never in the footprint taken away. */
  twostate lemma {:induction false} ParentNotGone(new p: KeyValues, new cs: seq<KeyValues>, new ms: seq<bool>, new k: nat)
    requires old(allocated(p)) && old(allocated(cs))
    requires old(p.Valid()) && cs == old(p.children) && |ms| == |cs| && k <= |cs|
    ensures p !in old(Gone(cs, ms, k))
    decreases k
  {
    if k > 0 {
      ParentNotGone(p, cs, ms, k - 1);
      assert old(cs[k - 1] in p.children);
    }
  }

  /** A child that stays has no node in the footprint taken away. */
  twostate lemma {:induction false} KeptNotGone(new p: KeyValues, new cs: seq<KeyValues>, new ms: seq<bool>, new k: nat)
    requires old(allocated(p)) && old(allocated(cs))
    requires old(p.Valid()) && cs == old(p.children) && |ms| == |cs| && k <= |cs|
    ensures forall j :: 0 <= j < |cs| && !ms[j] ==> old(cs[j].Repr) !! old(Gone(cs, ms, k))
    decreases k
  {
    if k > 0 {
      KeptNotGone(p, cs, ms, k - 1);
      if ms[k - 1] {
        forall j | 0 <= j < |cs| && !ms[j]
          ensures old(cs[j].Repr) !! old(cs[k - 1].Repr)
        {
          KidsApart(p, cs, j, k - 1);
        }
      }
    }
  }

  /** Two children of a valid node have disjoint footprints. */
  twostate lemma KidsApart(new p: KeyValues, new cs: seq<KeyValues>, new j: nat, new j': nat)
    requires old(allocated(p)) && old(allocated(cs))
    requires old(p.Valid()) && cs == old(p.children) && j < |cs| && j' < |cs| && j != j'
    ensures old(cs[j].Repr) !! old(cs[j'].Repr)
  {
    if j < j' {
      assert old(cs[j].Repr !! cs[j'].Repr);
    } else {
      assert old(cs[j'].Repr !! cs[j].Repr);
    }
  }

  /** The children kept keep pairwise disjoint footprints. */
  twostate lemma KeepDisjoint(new p: KeyValues, new cs: seq<KeyValues>, new at: seq<nat>)
    requires old(allocated(p)) && old(allocated(cs))
    requires old(p.Valid()) && cs == old(p.children)
    requires Picks(p.children, cs, at) && forall a, b :: 0 <= a < b < |at| ==> at[a] < at[b]
    requires forall j :: 0 <= j < |cs| ==> cs[j].Repr == old(cs[j].Repr)
    ensures Disjoint(p.children)
  {
    forall a, b | 0 <= a < b < |p.children|
      ensures p.children[a].Repr !! p.children[b].Repr
    {
      assert old(cs[at[a]].Repr !! cs[at[b]].Repr);
    }
  }

  /** The Trees of the children kept are their Trees from before, picked the same way. */
  twostate lemma KeepAbs(new p: KeyValues, new cs: seq<KeyValues>, new at: seq<nat>)
    requires old(allocated(p)) && old(allocated(cs))
    requires old(p.Valid()) && cs == old(p.children)
    requires p.Valid() && Picks(p.children, cs, at) && unchanged(p`name, p`value)
    requires forall j :: 0 <= j < |cs| ==> cs[j].Valid() && cs[j].Abs() == old(cs[j].Abs())
    ensures p.Abs().name == old(p.Abs()).name && p.Abs().value == old(p.Abs()).value
    ensures Picks(p.Abs().kids, old(p.Abs()).kids, at)
  {
    var before, after := old(p.Abs()), p.Abs();
    AbsKids(p);
    assert forall j :: 0 <= j < |cs| ==> before.kids[j] == old(cs[j].Abs());
    forall i | 0 <= i < |at|
      ensures at[i] < |before.kids| && after.kids[i] == before.kids[at[i]]
    {
      assert p.children[i] == cs[at[i]];
    }
  }

  /** Every node `Keep` keeps comes from the original list. */
  lemma KeepPrefixFrom(cs: seq<KeyValues>, ms: seq<bool>, k: nat, i: nat)
    requires |ms| == |cs| && k <= |cs| && i < |Keep(cs[..k], ms[..k])|
    ensures Keep(cs[..k], ms[..k])[i] in cs
  {
    KeepFrom(cs[..k], ms[..k], i);
  }

  /**
   * Where the loop in `Each` stands after `k` children: the list `now` is the
   * children `kept` so far followed by the original children `cs` from `k` on.
   */
  ghost predicate Scanned<T>(now: seq<T>, cs: seq<T>, ms: seq<bool>, k: nat, kept: seq<T>)
  {
    && |ms| == |cs| && k <= |cs|
    && kept == Keep(cs[..k], ms[..k])
    && |now| == |kept| + |cs| - k
    && (forall i :: 0 <= i < |kept| ==> now[i] == kept[i])
    && (forall i :: k <= i < |cs| ==> now[|kept| + i - k] == cs[i])
  }

  /** The callback's answer for the `k`-th child. */
  lemma DecisionAt(removes: seq<bool>, n: nat, k: nat)
    requires k < n
    ensures Decisions(removes, n)[k] == (k < |removes| && removes[k])
  {
  }

  /** The siblings of the `k`-th original child are original children too. */
  lemma Neighbours(p: KeyValues, cs: seq<KeyValues>, ms: seq<bool>, k: nat, kept: seq<KeyValues>)
    requires k < |cs| && Scanned(p.children, cs, ms, k, kept)
    requires p.ListOK()
    ensures p.children[|kept|] == cs[k] && cs[k].parent == p
    ensures cs[k].next != null ==> cs[k].next in cs && cs[k].next.parent == p
    ensures cs[k].prev != null ==> cs[k].prev in cs && cs[k].prev.parent == p
  {
    var n := |kept|;
    assert p.children[n] == cs[k];
    if n > 0 {
      KeepPrefixFrom(cs, ms, k, n - 1);
      assert cs[k].prev == p.children[n - 1] == kept[n - 1];
    }
    if k + 1 < |cs| {
      assert cs[k].next == p.children[n + 1] == cs[k + 1];
    }
  }

  /** One turn of the loop in `Each`, on the lists alone. */
  lemma ScannedStep<T>(before: seq<T>, now: seq<T>, cs: seq<T>, ms: seq<bool>, k: nat, kept: seq<T>, remove: bool)
    requires Scanned(before, cs, ms, k, kept) && k < |cs| && remove == ms[k]
    requires now == if remove then RemoveAt(before, |kept|) else before
    ensures Scanned(now, cs, ms, k + 1, if remove then kept else kept + [cs[k]])
  {
    var n := |kept|;
    assert before[n] == cs[k];
    KeepStep(cs, ms, k);
    if remove {
      forall i | k + 1 <= i < |cs|
        ensures now[n + i - (k + 1)] == cs[i]
      {
        assert before[n + i - k] == cs[i];
      }
    } else {
      var kept' := kept + [cs[k]];
      forall i | 0 <= i < |kept'|
        ensures now[i] == kept'[i]
      {
        if i < n {
          assert before[i] == kept[i];
        }
      }
    }
  }

  /** When the loop in `Each` ends, the children kept are the ones in place. */
  lemma EachDone<T>(children: seq<T>, cs: seq<T>, ms: seq<bool>, kept: seq<T>)
    requires Scanned(children, cs, ms, |cs|, kept)
    ensures children == Keep(cs, ms)
  {
    assert cs[..|cs|] == cs && ms[..|cs|] == ms;
  }
}

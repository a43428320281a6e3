/**
 * The value a KeyValues node stands for: its name, its value, and its
 * children in list order. A node is complex exactly when it has children;
 * a complex node's value is never read or written by the package.
 */
module Trees {

  datatype Tree = Tree(name: string, value: string, kids: seq<Tree>)

  /** The list `ts` without its element at index `i`. */
  function RemoveAt<T>(ts: seq<T>, i: nat): (r: seq<T>)
    requires i < |ts|
    ensures |r| == |ts| - 1
    ensures forall j :: 0 <= j < i ==> r[j] == ts[j]
    ensures forall j :: i <= j < |r| ==> r[j] == ts[j + 1]
  {
    seq(|ts| - 1, j requires 0 <= j < |ts| - 1 => if j < i then ts[j] else ts[j + 1])
  }

  /** A prefix one longer is the shorter prefix and one more element. */
  lemma PrefixStep<T>(s: seq<T>, k: nat)
    requires k < |s|
    ensures s[..k + 1] == s[..k] + [s[k]]
  {
  }

  lemma RemoveAtJoin<T>(a: seq<T>, b: seq<T>)
    requires b != []
    ensures RemoveAt(a + b, |a|) == a + b[1..]
  {
    assert (a + b)[..|a|] == a;
    assert (a + b)[|a| + 1..] == b[1..];
  }

  /** The elements of `xs` whose mark in `drops` is false, in order. */
  function Keep<T>(xs: seq<T>, drops: seq<bool>): (r: seq<T>)
    requires |drops| == |xs|
    ensures |r| <= |xs|
  {
    if xs == [] then []
    else Keep(xs[..|xs| - 1], drops[..|xs| - 1]) + (if drops[|xs| - 1] then [] else [xs[|xs| - 1]])
  }

  /** With no element marked, `Keep` returns the whole list. */
  lemma {:induction false} KeepNone<T>(xs: seq<T>, drops: seq<bool>)
    requires |drops| == |xs| && forall i :: 0 <= i < |xs| ==> !drops[i]
    ensures Keep(xs, drops) == xs
  {
    if xs != [] {
      var n := |xs| - 1;
      KeepNone(xs[..n], drops[..n]);
      assert xs[..n] + [xs[n]] == xs;
    }
  }

  /** With every element marked, `Keep` returns nothing. */
  lemma {:induction false} KeepAll<T>(xs: seq<T>, drops: seq<bool>)
    requires |drops| == |xs| && forall i :: 0 <= i < |xs| ==> drops[i]
    ensures Keep(xs, drops) == []
  {
    if xs != [] {
      var n := |xs| - 1;
      KeepAll(xs[..n], drops[..n]);
    }
  }

  /** `ys` takes its `i`-th element from `xs` at position `at[i]`. */
  ghost predicate Picks<T>(ys: seq<T>, xs: seq<T>, at: seq<nat>)
  {
    && |ys| == |at|
    && forall i :: 0 <= i < |at| ==> at[i] < |xs| && ys[i] == xs[at[i]]
  }

  /** The positions whose mark in `drops` is false, in increasing order. */
  function Kept(drops: seq<bool>): (at: seq<nat>)
    ensures forall i :: 0 <= i < |at| ==> at[i] < |drops| && !drops[at[i]]
    ensures forall a, b :: 0 <= a < b < |at| ==> at[a] < at[b]
  {
    if drops == [] then []
    else Kept(drops[..|drops| - 1]) + (if drops[|drops| - 1] then [] else [|drops| - 1])
  }

  /** `Keep` picks from `xs` exactly the positions `Kept` lists. */
  lemma {:induction false} KeepIs<T>(xs: seq<T>, drops: seq<bool>)
    requires |drops| == |xs|
    ensures Picks(Keep(xs, drops), xs, Kept(drops))
  {
    if xs != [] {
      var n := |xs| - 1;
      KeepIs(xs[..n], drops[..n]);
      var r, at := Keep(xs, drops), Kept(drops);
      forall i | 0 <= i < |at|
        ensures at[i] < |xs| && r[i] == xs[at[i]]
      {
        if i < |Kept(drops[..n])| {
          assert r[i] == Keep(xs[..n], drops[..n])[i];
        }
      }
    }
  }

  /** A list that picks the positions `Kept` lists is what `Keep` returns. */
  lemma KeepByIndex<T>(xs: seq<T>, drops: seq<bool>, ys: seq<T>)
    requires |drops| == |xs| && Picks(ys, xs, Kept(drops))
    ensures ys == Keep(xs, drops)
  {
    KeepIs(xs, drops);
  }

  /** Taking one more element into account. */
  lemma KeepStep<T>(xs: seq<T>, drops: seq<bool>, k: nat)
    requires |drops| == |xs| && k < |xs|
    ensures Keep(xs[..k + 1], drops[..k + 1]) == Keep(xs[..k], drops[..k]) + (if drops[k] then [] else [xs[k]])
  {
    assert xs[..k + 1][..k] == xs[..k];
    assert drops[..k + 1][..k] == drops[..k];
  }

  /** Everything `Keep` returns comes from `xs`, unmarked. */
  lemma {:induction false} KeepFrom<T>(xs: seq<T>, drops: seq<bool>, i: nat)
    requires |drops| == |xs| && i < |Keep(xs, drops)|
    ensures exists j :: 0 <= j < |xs| && xs[j] == Keep(xs, drops)[i] && !drops[j]
  {
    var n := |xs| - 1;
    if i < |Keep(xs[..n], drops[..n])| {
      KeepFrom(xs[..n], drops[..n], i);
      var j :| 0 <= j < n && xs[..n][j] == Keep(xs[..n], drops[..n])[i] && !drops[..n][j];
      assert xs[j] == Keep(xs, drops)[i] && !drops[j];
    } else {
      assert xs[n] == Keep(xs, drops)[i] && !drops[n];
    }
  }

  /** A tree as reading leaves it: every node with children has an empty value. */
  predicate Canonical(t: Tree)
    decreases t
  {
    && (t.kids != [] ==> t.value == "")
    && forall i :: 0 <= i < |t.kids| ==> Canonical(t.kids[i])
  }

  /**
   * What survives writing a tree out and reading it back: the writer never
   * writes a complex node's value, and the reader leaves it empty. The
   * result is canonical, and a leaf survives unchanged.
   */
  function Canon(t: Tree): (r: Tree)
    ensures Canonical(r)
    ensures r.name == t.name && |r.kids| == |t.kids|
    ensures t.kids == [] ==> r == t
    decreases t
  {
    Tree(t.name, if t.kids == [] then t.value else "",
         seq(|t.kids|, i requires 0 <= i < |t.kids| => Canon(t.kids[i])))
  }

  function CanonSeq(ts: seq<Tree>): (r: seq<Tree>)
    ensures |r| == |ts| && forall i :: 0 <= i < |ts| ==> r[i] == Canon(ts[i]) && Canonical(r[i])
  {
    seq(|ts|, i requires 0 <= i < |ts| => Canon(ts[i]))
  }

  /** Applying `Canon` twice changes nothing: what one write and read keeps, the next keeps too. */
  lemma CanonIdempotent(t: Tree)
    ensures Canon(Canon(t)) == Canon(t)
  {
    CanonicalFixed(Canon(t));
  }

  /** The trees `Canon` leaves unchanged are exactly the canonical ones. */
  lemma {:induction false} CanonicalFixed(t: Tree)
    ensures Canonical(t) <==> Canon(t) == t
    decreases t
  {
    forall i | 0 <= i < |t.kids|
      ensures Canonical(t.kids[i]) <==> Canon(t.kids[i]) == t.kids[i]
    {
      CanonicalFixed(t.kids[i]);
    }
    if Canonical(t) {
      assert Canon(t).kids == t.kids;
    }
    if Canon(t) == t {
      forall i | 0 <= i < |t.kids|
        ensures Canonical(t.kids[i])
      {
        assert Canon(t).kids[i] == Canon(t.kids[i]);
      }
    }
  }

  /** A list of canonical trees is left unchanged by `CanonSeq`. */
  lemma CanonSeqFixed(ts: seq<Tree>)
    requires forall i :: 0 <= i < |ts| ==> Canonical(ts[i])
    ensures CanonSeq(ts) == ts
  {
    forall i | 0 <= i < |ts|
      ensures CanonSeq(ts)[i] == ts[i]
    {
      CanonicalFixed(ts[i]);
    }
  }
}

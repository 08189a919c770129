/**
  The tree of `arvore_b_mais.c` as an object whose operations update its
  fields in place, step by step as the C functions do. Every method is
  proved to end in the state that the function of the same name in module
  BPlusSpec computes from the state it started in, so the properties proved
  there hold of the object.
*/
module BPlusTree {
  import opened Options
  import opened Keys
  import opened BPlusNode
  import Spec = BPlusSpec

  /** `BPlusTree` of `arvore_b_mais.h`: the node arena, the root and the order. */
  class BPlusTree<V> {
    var nodes: seq<Node<V>>
    var root: nat
    var order: int

    /** The tree as a value. */
    function Abs(): Tree<V>
      reads this
    {
      Tree(nodes, root, order)
    }

    /** The invariant between operations. */
    ghost predicate Valid()
      reads this
    {
      WellFormed(Abs())
    }

    /** The body of `create_bplus_tree` once the order has passed its check: a single empty leaf. */
    constructor (order: int)
      requires order >= 3
      ensures Some(Abs()) == Spec.CreateBPlusTree<V>(order)
    {
      this.order := order;
      nodes := [EmptyNode(true, 0)];
      root := 0;
    }

    /** `find_leaf` (lines 51-62): the descent from the root, one child index scan per level. */
    method FindLeaf(key: Key) returns (leaf: nat)
      requires Valid()
      ensures leaf == Spec.FindLeaf(Abs(), key)
      ensures leaf < |nodes| && nodes[leaf].isLeaf
    {
      var c: nat := root;
      while !nodes[c].isLeaf
        invariant c < |nodes|
        invariant Spec.Descend(Abs(), c, key) == Spec.Descend(Abs(), root, key)
        decreases nodes[c].level
      {
        var nd := nodes[c];
        var i := 0;
        while i < |nd.keys| && !Less(key, nd.keys[i])
          invariant 0 <= i <= |nd.keys|
          invariant i + Spec.ChildIndex(nd.keys[i..], key) == Spec.ChildIndex(nd.keys, key)
        {
          assert nd.keys[i..][1..] == nd.keys[i + 1..];
          i := i + 1;
        }
        assert NodeShape(Abs(), c);
        c := nd.children[i];
      }
      leaf := c;
    }

    /** `search` (lines 257-265): the value beside the first equal key in the leaf the descent reaches. */
    method Search(key: Key) returns (r: Option<V>)
      requires Valid()
      ensures r == Spec.Search(Abs(), key)
    {
      var leaf := FindLeaf(key);
      var nd := nodes[leaf];
      assert NodeShape(Abs(), leaf);
      var i := 0;
      while i < |nd.keys|
        invariant 0 <= i <= |nd.keys|
        invariant forall j :: 0 <= j < i ==> nd.keys[j] != key
      {
        if nd.keys[i] == key {
          assert Spec.FirstMatch(nd.keys, key) == i;
          return Some(nd.values[i]);
        }
        i := i + 1;
      }
      assert Spec.FirstMatch(nd.keys, key) == |nd.keys|;
      r := None;
    }
  
    /**
      `insert_into_node_no_split` (lines 64-87) on node `n`: the while loop
      shifts the keys greater than `key` one place right, together with the
      child to the right of each in an internal node; a leaf then shifts its
      values in a second loop; `key` and its child or value fill the gap.
    */
    method InsertIntoNodeNoSplit(n: nat, key: Key, p: Pointer<V>)
      requires n < |nodes| && Spec.Filled(nodes[n])
      requires nodes[n].isLeaf <==> p.Value?
      modifies this
      ensures nodes == old(nodes)[n := Spec.InsertIntoNodeNoSplit(old(nodes[n]), key, p)]
      ensures root == old(root) && order == old(order)
    {
      var nd := nodes[n];
      var keys, children, i := ShiftRight(nd.keys, nd.children, !nd.isLeaf, key, if p.Child? then p.index else 0);
      if nd.isLeaf {
        var values := OpenGap(nd.values, i, p.value);
        nodes := nodes[n := nd.(keys := keys, values := values)];
      } else {
        nodes := nodes[n := nd.(keys := keys, children := children)];
      }
    }

    /**
      `insert_into_parent` (lines 89-119). With no parent, a new root holding
      `key` between `left` and `right` (lines 92-104); with a parent that has
      room, the room-case insertion (line 108), after which the corrected
      revision also points `right`'s parent link at that parent; with a full
      parent, split the parent and try again (lines 116-117).
    */
    method InsertIntoParent(left: nat, right: nat, key: Key, ghost top: int, rev: Spec.Revision)
      requires Spec.Promoting(Abs(), left, right, top)
      modifies this
      ensures Abs() == Spec.InsertIntoParent(old(Abs()), left, right, key, top, rev)
      decreases top - nodes[left].level, if Spec.Roomy(Abs(), left) then 0 else 1
    {
      ghost var t := Abs();
      var parent := nodes[left].parent;
      if parent.None? {
        assert left == root;
        GrowRoot(left, right, key);
        return;
      }
      var p := parent.value;
      assert NodeShape(t, left) && NodeShape(t, p);
      if |nodes[p].keys| < order - 1 {
        InsertIntoParentNode(p, right, key, rev);
      } else {
        assert WellFormed(t);
        SplitInternalNode(p, top, rev);
        Spec.RetryReady(t, left, right, top, p, Abs());
        InsertIntoParent(left, right, key, top, rev);
      }
    }

    /** Lines 92-103: a new root holding `key` between `left` and `right`, which both link to it. */
    method GrowRoot(left: nat, right: nat, key: Key)
      requires WellFormedExcept(Abs(), right) && left == root && right < |nodes| && right != left
      requires nodes[right].level == nodes[left].level && Unlinked(Abs(), right)
      modifies this
      ensures Abs() == Spec.GrowRoot(old(Abs()), left, right, key)
    {
      ghost var t := Abs();
      var nr := |nodes|;
      nodes := nodes + [EmptyNode(false, nodes[left].level + 1)];
      nodes := nodes[nr := nodes[nr].(keys := [key], children := [left, right])];
      root := nr;
      nodes := nodes[left := nodes[left].(parent := Some(nr))];
      nodes := nodes[right := nodes[right].(parent := Some(nr))];
    }

    /**
      Line 108: the room-case insertion of `key` and `right` into the parent
      `p`; the corrected revision also points `right`'s parent link at `p`.
    */
    method InsertIntoParentNode(p: nat, right: nat, key: Key, rev: Spec.Revision)
      requires WellFormedExcept(Abs(), right) && p < |nodes| && right < |nodes| && right != root
      requires !nodes[p].isLeaf && |nodes[p].keys| < order - 1
      requires nodes[right].level + 1 == nodes[p].level && Unlinked(Abs(), right)
      requires rev == Spec.AsWritten ==> nodes[right].parent.Some?
      modifies this
      ensures Abs() == Spec.InsertIntoParentNode(old(Abs()), p, right, key, rev)
    {
      assert NodeShape(Abs(), p);
      InsertIntoNodeNoSplit(p, key, Child(right));
      if rev == Spec.Corrected {
        nodes := nodes[right := nodes[right].(parent := Some(p))];
      }
    }

    /**
      `split_internal_node` (lines 144-168): split `node` into two halves and
      promote its middle key.
    */
    method SplitInternalNode(node: nat, ghost top: int, rev: Spec.Revision)
      requires WellFormed(Abs()) && node < |nodes| && !nodes[node].isLeaf && |nodes[node].keys| == order - 1
      requires nodes[root].level + 1 <= top
      modifies this
      ensures Abs() == Spec.SplitInternalNode(old(Abs()), node, top, rev)
      decreases top - nodes[node].level, 2
    {
      var sib, promoted := InternalHalves(node);
      InsertIntoParent(node, sib, promoted, top, rev);
    }

    /**
      Lines 145-166: a new internal node receives keys `(mid, n)` and children
      `(mid, n]` in a copy loop, `node` keeps `mid` keys, a second loop points
      each moved child's parent link at the new node, which takes `node`'s
      parent; `keys[mid]` is the key to promote.
    */
    method InternalHalves(node: nat) returns (sib: nat, promoted: Key)
      requires WellFormed(Abs()) && node < |nodes| && !nodes[node].isLeaf && |nodes[node].keys| == order - 1
      modifies this
      ensures Abs() == Spec.SplitInternalHalves(old(Abs()), node)
      ensures sib == |old(nodes)| && promoted == old(nodes[node].keys[(order - 1) / 2])
    {
      ghost var t := Abs();
      assert NodeShape(t, node);
      var up := nodes[node].parent;
      var cs;
      sib, promoted, cs := InternalCopy(node);
      ghost var copied := nodes;
      Reparent(cs, sib);
      nodes := nodes[sib := nodes[sib].(parent := up)];
      InternalHalvesAre(t, node, copied, cs, nodes);
    }

    /** Lines 145-159: the copy into a new node, and the truncation of `node`. */
    method InternalCopy(node: nat) returns (sib: nat, promoted: Key, cs: seq<nat>)
      requires order >= 3 && node < |nodes| && NodeShape(Abs(), node)
      requires !nodes[node].isLeaf && |nodes[node].keys| == order - 1
      modifies this
      ensures root == old(root) && order == old(order) && sib == |old(nodes)|
      ensures promoted == old(nodes[node].keys[(order - 1) / 2])
      ensures HalvesCopied(old(Abs()), node, nodes, cs)
      ensures forall k :: 0 <= k < |cs| ==> cs[k] < |nodes|
    {
      var mid := (order - 1) / 2;
      var nd := nodes[node];
      promoted := nd.keys[mid];
      sib := |nodes|;
      nodes := nodes + [EmptyNode(false, nd.level)];
      var ks;
      ks, cs := CopyTail(nd.keys, nd.children, mid + 1);
      cs := cs + [nd.children[|nd.keys|]];
      assert cs == nd.children[mid + 1..];
      nodes := nodes[sib := nodes[sib].(keys := ks, children := cs)];
      nodes := nodes[node := nd.(keys := nd.keys[..mid], children := nd.children[..mid + 1])];
    }

    /** The loop at lines 162-164: each node listed in `cs` gets `p` as its parent. */
    method Reparent(cs: seq<nat>, p: nat)
      requires forall k :: 0 <= k < |cs| ==> cs[k] < |nodes|
      modifies this
      ensures nodes == Spec.Reparent(old(nodes), cs, p)
      ensures root == old(root) && order == old(order)
    {
      var k := 0;
      while k < |cs|
        invariant 0 <= k <= |cs| && |nodes| == |old(nodes)|
        invariant root == old(root) && order == old(order)
        invariant forall x :: 0 <= x < |nodes| ==>
          nodes[x] == if x in cs[..k] then old(nodes)[x].(parent := Some(p)) else old(nodes)[x]
      {
        assert cs[..k + 1] == cs[..k] + [cs[k]];
        nodes := nodes[cs[k] := nodes[cs[k]].(parent := Some(p))];
        k := k + 1;
      }
      assert cs[..k] == cs;
    }

    /**
      `split_leaf_node` (lines 121-142): split `leaf` into two halves and
      promote the first key of the new leaf.
    */
    method SplitLeafNode(leaf: nat, rev: Spec.Revision)
      requires WellFormed(Abs()) && leaf < |nodes| && nodes[leaf].isLeaf && |nodes[leaf].keys| == order - 1
      modifies this
      ensures Abs() == Spec.SplitLeafNode(old(Abs()), leaf, rev)
    {
      ghost var t := Abs();
      ghost var top := Spec.Ceiling(t);
      Spec.SplitLeafPromoting(t, leaf);
      var nl := LeafHalves(leaf);
      InsertIntoParent(leaf, nl, nodes[nl].keys[0], top, rev);
    }

    /**
      Lines 122-138: a new leaf receives the entries from `order / 2` on in a
      copy loop, the old leaf keeps the rest, and the new leaf is linked in
      after the old one and takes its parent.
    */
    method LeafHalves(leaf: nat) returns (nl: nat)
      requires WellFormed(Abs()) && leaf < |nodes| && nodes[leaf].isLeaf && |nodes[leaf].keys| == order - 1
      modifies this
      ensures Abs() == Spec.SplitLeafHalves(old(Abs()), leaf)
      ensures nl == |old(nodes)|
    {
      ghost var t := Abs();
      assert NodeShape(t, leaf);
      var mid := order / 2;
      var nd := nodes[leaf];
      nl := |nodes|;
      nodes := nodes + [EmptyNode(true, 0)];
      var ks, vs := CopyTail(nd.keys, nd.values, mid);
      nodes := nodes[nl := nodes[nl].(keys := ks, values := vs)];
      nodes := nodes[leaf := nd.(keys := nd.keys[..mid], values := nd.values[..mid])];
      nodes := nodes[nl := nodes[nl].(next := nd.next)];
      nodes := nodes[leaf := nodes[leaf].(next := Some(nl))];
      nodes := nodes[nl := nodes[nl].(parent := nd.parent)];
      assert nodes[nl] == Node(true, nd.keys[mid..], [], nd.values[mid..], nd.parent, nd.next, 0);
      assert nodes[leaf] == nd.(keys := nd.keys[..mid], values := nd.values[..mid], next := Some(nl));
      assert forall n :: 0 <= n < nl && n != leaf ==> nodes[n] == t.nodes[n];
      assert nodes == t.nodes[leaf := nd.(keys := nd.keys[..mid], values := nd.values[..mid], next := Some(nl))]
        + [Node(true, nd.keys[mid..], [], nd.values[mid..], nd.parent, nd.next, 0)];
    }

    /**
      `insert` (lines 170-186): find the leaf, split it first when full and
      step to the new leaf when `key` is not below its first key, then insert
      into a leaf that has room.
    */
    method Insert(key: Key, v: V, rev: Spec.Revision)
      requires Valid()
      modifies this
      ensures Abs() == Spec.Insert(old(Abs()), key, v, rev)
      ensures Valid()
    {
      ghost var t := Abs();
      var leaf := FindLeaf(key);
      assert NodeShape(t, leaf);
      if |nodes[leaf].keys| == order - 1 {
        SplitLeafNode(leaf, rev);
        var next := nodes[leaf].next.value;
        if !Less(key, nodes[next].keys[0]) {
          leaf := next;
        }
      }
      assert NodeShape(Abs(), leaf);
      InsertIntoNodeNoSplit(leaf, key, Value(v));
    }
  }

  /**
    The `for` loop at lines 79-82: the values from position `i` on move one
    place right, then `v` goes in at `i`.
  */
  method OpenGap<V>(values: seq<V>, i: nat, v: V) returns (r: seq<V>)
    requires i <= |values|
    ensures r == values[..i] + [v] + values[i..]
  {
    var m := |values|;
    r := values + [v];
    var j := m;
    while j > i
      invariant i <= j <= m && |r| == m + 1
      invariant r[..j] == values[..j] && r[j + 1..] == values[j..]
    {
      r := r[j := r[j - 1]];
      j := j - 1;
    }
    r := r[i := v];
    assert r == r[..i] + [v] + r[i + 1..];
  }

  /**
    The `while` loop at lines 67-74 and the writes at lines 75 and 83: the
    keys greater than `key` move one place right, in an internal node with
    the child to the right of each; `key` fills the gap at the position `i`
    where the loop stops, and an internal node's new child `c` goes at `i + 1`.
  */
  method ShiftRight(ks: seq<Key>, cs: seq<nat>, internal: bool, key: Key, c: nat)
    returns (keys: seq<Key>, children: seq<nat>, i: nat)
    requires internal ==> |cs| == |ks| + 1
    ensures i == Spec.InsertPos(ks, key)
    ensures keys == ks[..i] + [key] + ks[i..]
    ensures !internal ==> children == cs
    ensures internal ==> children == cs[..i + 1] + [c] + cs[i + 1..]
  {
    var m := |ks|;
    keys := ks + [key];
    children := if internal then cs + [c] else cs;
    i := m;
    while i > 0 && Less(key, keys[i - 1])
      invariant 0 <= i <= m && |keys| == m + 1
      invariant keys[..i] == ks[..i] && keys[i + 1..] == ks[i..]
      invariant forall j :: i <= j < m ==> Less(key, ks[j])
      invariant internal ==> |children| == m + 2 && children[..i + 1] == cs[..i + 1] && children[i + 2..] == cs[i + 1..]
      invariant !internal ==> children == cs
    {
      keys := keys[i := keys[i - 1]];
      if internal {
        children := children[i + 1 := children[i]];
      }
      i := i - 1;
    }
    Spec.InsertPosAt(ks, key, i);
    keys := keys[i := key];
    assert keys == keys[..i] + [key] + keys[i + 1..];
    if internal {
      children := children[i + 1 := c];
      assert children == children[..i + 1] + [c] + children[i + 2..];
    }
  }

  /**
    `copied` is `t`'s arena after the copy at lines 145-159 of `node`'s upper
    half into a new last node, and `cs` the children that moved.
  */
  ghost predicate HalvesCopied<V>(t: Tree<V>, node: nat, copied: seq<Node<V>>, cs: seq<nat>)
    requires node < |t.nodes|
  {
    var nd, mid := t.nodes[node], (t.order - 1) / 2;
    && 0 <= mid < |nd.keys| && |nd.children| == |nd.keys| + 1 && cs == nd.children[mid + 1..]
    && copied == t.nodes[node := nd.(keys := nd.keys[..mid], children := nd.children[..mid + 1])]
                   + [Node(false, nd.keys[mid + 1..], cs, [], None, None, nd.level)]
  }

  /** The steps of `BPlusTree.InternalHalves` put together give `Spec.SplitInternalHalves`. */
  lemma InternalHalvesAre<V>(t: Tree<V>, node: nat, copied: seq<Node<V>>, cs: seq<nat>, final: seq<Node<V>>)
    requires WellFormed(t) && node < |t.nodes| && !t.nodes[node].isLeaf && |t.nodes[node].keys| == t.order - 1
    requires HalvesCopied(t, node, copied, cs)
    requires final == var rs := Spec.Reparent(copied, cs, |t.nodes|);
      rs[|t.nodes| := rs[|t.nodes|].(parent := t.nodes[node].parent)]
    ensures t.(nodes := final) == Spec.SplitInternalHalves(t, node)
  {
    var nd, sib, mid := t.nodes[node], |t.nodes|, (t.order - 1) / 2;
    assert NodeShape(t, node);
    Spec.MovedOut(t, node);
    var u := t.(nodes := final);
    assert Spec.SplitExact(t, node, u) by {
      assert final[node] == copied[node];
      forall n | 0 <= n < sib && n != node
        ensures final[n] == if n in cs then t.nodes[n].(parent := Some(sib)) else t.nodes[n]
      {
        assert copied[n] == t.nodes[n];
      }
    }
    Spec.SplitExactUnique(t, node, u, Spec.SplitInternalHalves(t, node));
  }

  /**
    The copy loops at lines 128-131 and 152-156: the entries of `a` from
    `from` on, with the elements of `b` at the same positions.
  */
  method CopyTail<A, B>(a: seq<A>, b: seq<B>, from: nat) returns (ra: seq<A>, rb: seq<B>)
    requires from <= |a| <= |b|
    ensures ra == a[from..] && rb == b[from..|a|]
  {
    ra, rb := [], [];
    var i := from;
    while i < |a|
      invariant from <= i <= |a|
      invariant ra == a[from..i] && rb == b[from..i]
    {
      ra, rb := ra + [a[i]], rb + [b[i]];
      i := i + 1;
    }
  }

  /**
    `create_bplus_tree` (lines 221-230): no tree (the C `NULL`) for an order
    below 3, otherwise a fresh tree whose root is one empty leaf.
  */
  method CreateBPlusTree<V>(order: int) returns (t: BPlusTree?<V>)
    ensures t == null <==> order < 3
    ensures t != null ==> fresh(t) && Some(t.Abs()) == Spec.CreateBPlusTree<V>(order) && t.Valid()
  {
    if order < 3 {
      return null;
    }
    t := new BPlusTree(order);
  }
}

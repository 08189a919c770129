/**
  The operations of `arvore_b_mais.c` as functions from one tree value to
  the next. The class in module BPlusTree runs the same steps in place and
  is proved to end in exactly these states; the lemmas here say what the
  states mean.
*/
module BPlusSpec {
  import opened Options
  import opened Keys
  import opened BPlusNode

  // ---------------------------------------------------------------- create

  /**
    `create_bplus_tree`: no tree for an order below 3; otherwise a tree of
    that order whose root is an empty leaf with no parent and no next leaf.
  */
  function CreateBPlusTree<V>(order: int): (r: Option<Tree<V>>)
    ensures r.None? <==> order < 3
    ensures r.Some? ==>
      && Valid(r.value)
      && r.value.order == order
      && r.value.nodes[r.value.root] == EmptyNode(true, 0)
      && Entries(r.value.nodes) == multiset{}
  {
    if order < 3 then None
    else
      var t := Tree([EmptyNode(true, 0)], 0, order);
      assert Entries(t.nodes) == SumUpTo(t.nodes, 0, LeafEntries) + LeafEntries(t.nodes[0]);
      Some(t)
  }

  // ---------------------------------------------------------------- descent

  /**
    The inner loop of `find_leaf`: the number of leading keys that are
    `<= key`. The scan stops at the first key greater than `key`, so a key
    equal to a separator goes to the separator's right.
  */
  function ChildIndex(keys: seq<Key>, key: Key): (i: nat)
    ensures i <= |keys|
    ensures forall j :: 0 <= j < i ==> LessEq(keys[j], key)
    ensures i < |keys| ==> Less(key, keys[i])
  {
    if keys == [] || Less(key, keys[0]) then 0 else 1 + ChildIndex(keys[1..], key)
  }

  /** In sorted keys the scan splits the keys into those `<= key` and those `> key`. */
  lemma ChildIndexSorted(keys: seq<Key>, key: Key)
    requires Sorted(keys)
    ensures forall j :: ChildIndex(keys, key) <= j < |keys| ==> Less(key, keys[j])
  {
    var i := ChildIndex(keys, key);
    forall j | i <= j < |keys|
      ensures Less(key, keys[j])
    {
      if j > i {
        LessLessEqTransitive(key, keys[i], keys[j]);
      }
    }
  }

  /** The descent of `find_leaf` from node `n`: follow child `ChildIndex` until a leaf. */
  function Descend<V>(t: Tree<V>, n: nat, key: Key): (leaf: nat)
    requires WellFormedExcept(t, t.root) && n < |t.nodes|
    ensures leaf < |t.nodes| && t.nodes[leaf].isLeaf
    ensures t.nodes[n].isLeaf ==> leaf == n
    decreases t.nodes[n].level
  {
    var nd := t.nodes[n];
    if nd.isLeaf then n
    else
      assert NodeShape(t, n);
      Descend(t, nd.children[ChildIndex(nd.keys, key)], key)
  }

  /** `find_leaf`: the leaf that the descent from the root reaches. */
  function FindLeaf<V>(t: Tree<V>, key: Key): (leaf: nat)
    requires WellFormed(t)
    ensures leaf < |t.nodes| && t.nodes[leaf].isLeaf
  {
    Descend(t, t.root, key)
  }

  // ---------------------------------------------------------------- search

  /** The scan of `search`: the index of the first key equal to `key`, or the key count if none. */
  function FirstMatch(keys: seq<Key>, key: Key): (i: nat)
    ensures i <= |keys|
    ensures i < |keys| ==> keys[i] == key
    ensures forall j :: 0 <= j < i ==> keys[j] != key
  {
    if keys == [] then 0
    else if keys[0] == key then 0
    else 1 + FirstMatch(keys[1..], key)
  }

  /**
    `search`: the value of the first entry with key `key` in the leaf that
    the descent reaches, or `None` (the C `NULL`) when that leaf has none.
  */
  function Search<V>(t: Tree<V>, key: Key): (r: Option<V>)
    requires WellFormed(t)
    ensures var leaf := t.nodes[FindLeaf(t, key)];
      && (r.None? <==> key !in leaf.keys)
      && (r.Some? ==> (key, r.value) in LeafEntries(leaf))
      && (r.Some? ==> FirstMatch(leaf.keys, key) < |leaf.values| && r.value == leaf.values[FirstMatch(leaf.keys, key)])
  {
    var leaf := t.nodes[FindLeaf(t, key)];
    assert NodeShape(t, FindLeaf(t, key));
    var i := FirstMatch(leaf.keys, key);
    if i < |leaf.keys| then
      assert Pairs(leaf)[i] == (key, leaf.values[i]);
      Some(leaf.values[i])
    else None
  }

  // ---------------------------------------------------------------- insertion into a node with room

  /**
    Where the shifting loop of `insert_into_node_no_split` stops: it walks
    from the last key leftwards while the new key is smaller, so the new key
    lands after every key `<=` it.
  */
  function InsertPos(keys: seq<Key>, key: Key): (i: nat)
    ensures i <= |keys|
    ensures forall j :: i <= j < |keys| ==> Less(key, keys[j])
    ensures 0 < i ==> LessEq(keys[i - 1], key)
  {
    if keys == [] || !Less(key, keys[|keys| - 1]) then |keys|
    else InsertPos(keys[..|keys| - 1], key)
  }

  /** The shifting loop's exit condition pins down the insertion point. */
  lemma {:induction false} InsertPosAt(keys: seq<Key>, key: Key, i: nat)
    requires i <= |keys|
    requires forall j :: i <= j < |keys| ==> Less(key, keys[j])
    requires i == 0 || !Less(key, keys[i - 1])
    ensures InsertPos(keys, key) == i
    decreases |keys|
  {
    if i < |keys| {
      InsertPosAt(keys[..|keys| - 1], key, i);
    }
  }

  /** In sorted keys every key before the insertion point is `<=` the new one. */
  lemma InsertPosSorted(keys: seq<Key>, key: Key)
    requires Sorted(keys)
    ensures forall j :: 0 <= j < InsertPos(keys, key) ==> LessEq(keys[j], key)
  {
    var i := InsertPos(keys, key);
    forall j | 0 <= j < i
      ensures LessEq(keys[j], key)
    {
      if j < i - 1 {
        LessEqTransitive(keys[j], keys[i - 1], key);
      }
    }
  }

  /** The node shape `insert_into_node_no_split` relies on: one value per key, or one child more than keys. */
  ghost predicate Filled<V>(nd: Node<V>) {
    if nd.isLeaf then |nd.values| == |nd.keys| else |nd.children| == |nd.keys| + 1
  }

  /** Putting `key` at its insertion point keeps sorted keys sorted. */
  lemma InsertAtPosSorted(keys: seq<Key>, key: Key)
    requires Sorted(keys)
    ensures var i := InsertPos(keys, key); Sorted(keys[..i] + [key] + keys[i..])
  {
    var i := InsertPos(keys, key);
    var ks := keys[..i] + [key] + keys[i..];
    InsertPosSorted(keys, key);
    forall a, b | 0 <= a < b < |ks|
      ensures LessEq(ks[a], ks[b])
    {
      if b == i {
        assert ks[a] == keys[a];
      } else if a == i {
        assert ks[b] == keys[b - 1];
        LessTrichotomy(key, keys[b - 1]);
      } else {
        var a', b' := if a < i then a else a - 1, if b < i then b else b - 1;
        assert ks[a] == keys[a'] && ks[b] == keys[b'] && a' < b';
      }
    }
  }

  /** Inserting a (key, value) pair into a leaf adds exactly that pair to its entries. */
  lemma LeafEntriesInsert<V>(nd: Node<V>, i: nat, key: Key, v: V)
    requires nd.isLeaf && |nd.values| == |nd.keys| && i <= |nd.keys|
    ensures var r := nd.(keys := nd.keys[..i] + [key] + nd.keys[i..], values := nd.values[..i] + [v] + nd.values[i..]);
      LeafEntries(r) == LeafEntries(nd) + multiset{(key, v)}
  {
    var r := nd.(keys := nd.keys[..i] + [key] + nd.keys[i..], values := nd.values[..i] + [v] + nd.values[i..]);
    var ps := Pairs(nd);
    assert Pairs(r) == ps[..i] + [(key, v)] + ps[i..];
    assert ps == ps[..i] + ps[i..];
    calc {
      LeafEntries(r);
      multiset(ps[..i] + [(key, v)] + ps[i..]);
      multiset(ps[..i]) + multiset{(key, v)} + multiset(ps[i..]);
      multiset(ps[..i]) + multiset(ps[i..]) + multiset{(key, v)};
      multiset(ps) + multiset{(key, v)};
    }
  }

  /** The key list after `insert_into_node_no_split`: one key more, at the insertion point, still sorted. */
  lemma InsertedKeys(keys: seq<Key>, key: Key)
    ensures var i := InsertPos(keys, key); var ks := keys[..i] + [key] + keys[i..];
      && |ks| == |keys| + 1 && ks[i] == key
      && multiset(ks) == multiset(keys) + multiset{key}
      && (Sorted(keys) ==> Sorted(ks))
  {
    var i := InsertPos(keys, key);
    var a, b := keys[..i], keys[i..];
    assert keys == a + b;
    assert multiset(a + [key] + b) == multiset(a) + multiset{key} + multiset(b);
    if Sorted(keys) {
      InsertAtPosSorted(keys, key);
    }
  }

  /**
    `insert_into_node_no_split`: the key goes in at its sorted position; in a
    leaf the value goes beside it, in an internal node the child goes
    immediately to the key's right and the children to its left stay put.
  */
  function InsertIntoNodeNoSplit<V>(nd: Node<V>, key: Key, p: Pointer<V>): (r: Node<V>)
    requires Filled(nd)
    requires nd.isLeaf <==> p.Value?
    ensures Filled(r) && |r.keys| == |nd.keys| + 1
    ensures r.isLeaf == nd.isLeaf && r.parent == nd.parent && r.next == nd.next && r.level == nd.level
    ensures r.keys[InsertPos(nd.keys, key)] == key
    ensures multiset(r.keys) == multiset(nd.keys) + multiset{key}
    ensures Sorted(nd.keys) ==> Sorted(r.keys)
    ensures nd.isLeaf ==> r.children == nd.children && LeafEntries(r) == LeafEntries(nd) + multiset{(key, p.value)}
    ensures !nd.isLeaf ==>
      var i := InsertPos(nd.keys, key);
      && r.values == nd.values
      && r.children == nd.children[..i + 1] + [p.index] + nd.children[i + 1..]
  {
    var i := InsertPos(nd.keys, key);
    var keys := nd.keys[..i] + [key] + nd.keys[i..];
    InsertedKeys(nd.keys, key);
    if nd.isLeaf then
      LeafEntriesInsert(nd, i, key, p.value);
      nd.(keys := keys, values := nd.values[..i] + [p.value] + nd.values[i..])
    else
      nd.(keys := keys, children := nd.children[..i + 1] + [p.index] + nd.children[i + 1..])
  }

  // ---------------------------------------------------------------- leaf split

  /**
    Lines 122-139 of `split_leaf_node`, before the promotion: a new leaf is
    appended; the full leaf keeps its first `order / 2` entries and the new
    one gets the rest, in order; the new leaf is spliced into the `next_leaf`
    chain right after the old one and starts with the old one's parent.
  */
  function SplitLeafHalves<V>(t: Tree<V>, leaf: nat): (r: Tree<V>)
    requires WellFormed(t) && leaf < |t.nodes|
    requires t.nodes[leaf].isLeaf && |t.nodes[leaf].keys| == t.order - 1
    ensures var nd, nl, mid := t.nodes[leaf], |t.nodes|, t.order / 2;
      && Extends(t, r) && |r.nodes| == nl + 1 && r.root == t.root
      && WellFormedExcept(r, nl) && Unlinked(r, nl)
      && r.nodes[nl].isLeaf && r.nodes[nl].level == 0
      && |r.nodes[leaf].keys| == mid && 0 < |r.nodes[nl].keys| < t.order - 1
      && r.nodes[leaf].keys + r.nodes[nl].keys == nd.keys
      && r.nodes[leaf].values + r.nodes[nl].values == nd.values
      && r.nodes[nl].keys[0] == nd.keys[mid]
      && r.nodes[leaf].next == Some(nl) && r.nodes[nl].next == nd.next
      && r.nodes[leaf].parent == nd.parent && r.nodes[nl].parent == nd.parent
      && (forall n :: 0 <= n < nl && n != leaf ==> r.nodes[n] == t.nodes[n])
      && Entries(r.nodes) == Entries(t.nodes)
      && (BackLinks(t) ==> BackLinks(r))
  {
    var nd, nl, mid := t.nodes[leaf], |t.nodes|, t.order / 2;
    assert NodeShape(t, leaf);
    var left := nd.(keys := nd.keys[..mid], values := nd.values[..mid], next := Some(nl));
    var right := Node(true, nd.keys[mid..], [], nd.values[mid..], nd.parent, nd.next, 0);
    var r := t.(nodes := t.nodes[leaf := left] + [right]);
    SplitLeafNodes(t, leaf, r);
    SplitLeafShape(t, leaf, r);
    SplitLeafEntries(t, leaf, r);
    SplitLeafBackLinks(t, leaf, r);
    r
  }

  /** The shape of `SplitLeafHalves`'s result, given as a precondition so that the lemmas below can share it. */
  ghost predicate IsLeafSplit<V>(t: Tree<V>, leaf: nat, r: Tree<V>)
    requires leaf < |t.nodes|
  {
    var nd, nl, mid := t.nodes[leaf], |t.nodes|, t.order / 2;
    && 0 <= mid <= |nd.keys| == |nd.values|
    && r == t.(nodes := t.nodes[leaf := nd.(keys := nd.keys[..mid], values := nd.values[..mid], next := Some(nl))]
                      + [Node(true, nd.keys[mid..], [], nd.values[mid..], nd.parent, nd.next, 0)])
  }

  /** The two halves of a leaf split, and every other node unchanged. */
  lemma SplitLeafNodes<V>(t: Tree<V>, leaf: nat, r: Tree<V>)
    requires leaf < |t.nodes| && t.nodes[leaf].isLeaf && 2 < t.order && |t.nodes[leaf].keys| == t.order - 1
    requires IsLeafSplit(t, leaf, r)
    ensures var nd, nl, mid := t.nodes[leaf], |t.nodes|, t.order / 2;
      && |r.nodes| == nl + 1 && r.root == t.root
      && r.nodes[nl].isLeaf && r.nodes[nl].level == 0
      && |r.nodes[leaf].keys| == mid && 0 < |r.nodes[nl].keys| < t.order - 1
      && r.nodes[leaf].keys + r.nodes[nl].keys == nd.keys
      && r.nodes[leaf].values + r.nodes[nl].values == nd.values
      && r.nodes[nl].keys[0] == nd.keys[mid]
      && r.nodes[leaf].next == Some(nl) && r.nodes[nl].next == nd.next
      && r.nodes[leaf].parent == nd.parent && r.nodes[nl].parent == nd.parent
      && (forall n :: 0 <= n < nl && n != leaf ==> r.nodes[n] == t.nodes[n])
  {
    var nd, mid := t.nodes[leaf], t.order / 2;
    assert nd.keys[..mid] + nd.keys[mid..] == nd.keys;
    assert nd.values[..mid] + nd.values[mid..] == nd.values;
  }

  lemma SplitLeafShape<V>(t: Tree<V>, leaf: nat, r: Tree<V>)
    requires WellFormed(t) && leaf < |t.nodes|
    requires t.nodes[leaf].isLeaf && |t.nodes[leaf].keys| == t.order - 1
    requires IsLeafSplit(t, leaf, r)
    ensures Extends(t, r) && WellFormedExcept(r, |t.nodes|) && Unlinked(r, |t.nodes|)
  {
    var nd, nl, mid := t.nodes[leaf], |t.nodes|, t.order / 2;
    assert NodeShape(t, leaf);
    forall n | 0 <= n < |r.nodes|
      ensures NodeShape(r, n)
    {
      if n == nl {
        assert Sorted(r.nodes[n].keys) by {
          forall a, b | 0 <= a < b < |r.nodes[n].keys|
            ensures LessEq(r.nodes[n].keys[a], r.nodes[n].keys[b])
          {
            assert r.nodes[n].keys[a] == nd.keys[mid + a] && r.nodes[n].keys[b] == nd.keys[mid + b];
          }
        }
      } else if n != leaf {
        assert NodeShape(t, n);
        ContentStable(t, r, n);
        ParentStable(t, r, n);
      }
    }
    forall n, i | 0 <= n < |r.nodes| && 0 <= i < |r.nodes[n].children|
      ensures r.nodes[n].children[i] != nl
    {
      assert NodeShape(t, n);
    }
  }

  lemma SplitLeafEntries<V>(t: Tree<V>, leaf: nat, r: Tree<V>)
    requires leaf < |t.nodes| && t.nodes[leaf].isLeaf
    requires IsLeafSplit(t, leaf, r)
    ensures Entries(r.nodes) == Entries(t.nodes)
  {
    var nd, nl, mid := t.nodes[leaf], |t.nodes|, t.order / 2;
    LeafEntriesSplit(nd, r.nodes[leaf], r.nodes[nl], mid);
    EntriesSplit(t.nodes, leaf, r.nodes[leaf], r.nodes[nl]);
    assert r.nodes == t.nodes[leaf := r.nodes[leaf]] + [r.nodes[nl]];
  }

  lemma LeafEntriesSplit<V>(nd: Node<V>, x: Node<V>, y: Node<V>, mid: nat)
    requires nd.isLeaf && mid <= |nd.keys| == |nd.values|
    requires x.isLeaf && x.keys == nd.keys[..mid] && x.values == nd.values[..mid]
    requires y.isLeaf && y.keys == nd.keys[mid..] && y.values == nd.values[mid..]
    ensures LeafEntries(x) + LeafEntries(y) == LeafEntries(nd)
  {
    var ps := Pairs(nd);
    assert Pairs(x) == ps[..mid] && Pairs(y) == ps[mid..];
    assert ps == ps[..mid] + ps[mid..];
  }

  lemma SplitLeafBackLinks<V>(t: Tree<V>, leaf: nat, r: Tree<V>)
    requires WellFormed(t) && leaf < |t.nodes| && t.nodes[leaf].isLeaf
    requires IsLeafSplit(t, leaf, r)
    ensures BackLinks(t) ==> BackLinks(r)
  {
    if BackLinks(t) {
      forall n, i | 0 <= n < |r.nodes| && 0 <= i < |r.nodes[n].children| && r.nodes[n].children[i] < |r.nodes|
        ensures r.nodes[r.nodes[n].children[i]].parent == Some(n)
      {
        assert NodeShape(t, leaf);
        assert NodeShape(t, n);
      }
    }
  }

  // ---------------------------------------------------------------- promotion into the parent

  /** Which `insert_into_parent` is meant: the code as written, or with the link of the inserted child corrected. */
  datatype Revision = AsWritten | Corrected

  /**
    Lines 92-103 of `insert_into_parent`, the split node being the root: a
    new internal root with the one key and the children `[left, right]`;
    both children's parent links name it. This is the only place where the
    tree grows taller.
  */
  function GrowRoot<V>(t: Tree<V>, left: nat, right: nat, key: Key): (r: Tree<V>)
    requires WellFormedExcept(t, right) && left == t.root && right < |t.nodes| && right != left
    requires t.nodes[right].level == t.nodes[left].level && Unlinked(t, right)
    ensures var nr := |t.nodes|;
      && Extends(t, r) && |r.nodes| == nr + 1 && r.root == nr
      && r.nodes[nr] == Node(false, [key], [left, right], [], None, None, t.nodes[left].level + 1)
      && r.nodes[left] == t.nodes[left].(parent := Some(nr))
      && r.nodes[right] == t.nodes[right].(parent := Some(nr))
      && (forall n :: 0 <= n < nr && n != left && n != right ==> r.nodes[n] == t.nodes[n])
      && WellFormed(r)
      && (BackLinks(t) ==> BackLinks(r))
  {
    var nr := |t.nodes|;
    var root := Node(false, [key], [left, right], [], None, None, t.nodes[left].level + 1);
    var nodes := (t.nodes + [root])[left := t.nodes[left].(parent := Some(nr))][right := t.nodes[right].(parent := Some(nr))];
    var r := Tree(nodes, nr, t.order);
    assert IsGrownRoot(t, left, right, key, r) by {
      forall n | 0 <= n < nr && n != left && n != right
        ensures r.nodes[n] == t.nodes[n]
      {
        assert nodes[n] == (t.nodes + [root])[n];
      }
    }
    GrowRootProof(t, left, right, key, r);
    r
  }

  /** Node by node, the arena after `GrowRoot`. */
  ghost predicate IsGrownRoot<V>(t: Tree<V>, left: nat, right: nat, key: Key, r: Tree<V>)
    requires left < |t.nodes| && right < |t.nodes|
  {
    var nr := |t.nodes|;
    && |r.nodes| == nr + 1 && r.root == nr && r.order == t.order
    && r.nodes[nr] == Node(false, [key], [left, right], [], None, None, t.nodes[left].level + 1)
    && r.nodes[left] == t.nodes[left].(parent := Some(nr))
    && r.nodes[right] == t.nodes[right].(parent := Some(nr))
    && (forall n :: 0 <= n < nr && n != left && n != right ==> r.nodes[n] == t.nodes[n])
  }

  lemma GrowRootProof<V>(t: Tree<V>, left: nat, right: nat, key: Key, r: Tree<V>)
    requires WellFormedExcept(t, right) && left == t.root && right < |t.nodes| && right != left
    requires t.nodes[right].level == t.nodes[left].level && Unlinked(t, right)
    requires IsGrownRoot(t, left, right, key, r)
    ensures Extends(t, r) && WellFormed(r) && (BackLinks(t) ==> BackLinks(r))
  {
    var nr := |t.nodes|;
    forall n | 0 <= n < |r.nodes|
      ensures NodeShape(r, n)
    {
      GrowRootNodeShape(t, left, right, key, r, n);
    }
    if BackLinks(t) {
      GrowRootBackLinks(t, left, right, key, r);
    }
  }

  lemma GrowRootNodeShape<V>(t: Tree<V>, left: nat, right: nat, key: Key, r: Tree<V>, n: nat)
    requires WellFormedExcept(t, right) && left == t.root && right < |t.nodes| && right != left
    requires t.nodes[right].level == t.nodes[left].level
    requires IsGrownRoot(t, left, right, key, r) && n < |r.nodes|
    ensures NodeShape(r, n)
  {
    var nr := |t.nodes|;
    if n < nr {
      assert NodeShape(t, n);
      ContentStable(t, r, n);
      if n != left && n != right {
        ParentStable(t, r, n);
      }
    }
  }

  lemma GrowRootBackLinks<V>(t: Tree<V>, left: nat, right: nat, key: Key, r: Tree<V>)
    requires WellFormedExcept(t, right) && left == t.root && right < |t.nodes| && right != left
    requires Unlinked(t, right) && BackLinks(t)
    requires IsGrownRoot(t, left, right, key, r)
    ensures BackLinks(r)
  {
    var nr := |t.nodes|;
    forall n, i | 0 <= n < |r.nodes| && 0 <= i < |r.nodes[n].children| && r.nodes[n].children[i] < |r.nodes|
      ensures r.nodes[r.nodes[n].children[i]].parent == Some(n)
    {
      if n < nr {
        var c := t.nodes[n].children[i];
        assert NodeShape(t, n);
        assert c != right;
        assert c != left by {
          assert t.nodes[c].parent == Some(n);
        }
      }
    }
  }

  /** Whether `left`'s parent exists and has room for one more key: the test at line 107. */
  ghost predicate Roomy<V>(t: Tree<V>, left: nat)
    requires left < |t.nodes|
  {
    var p := t.nodes[left].parent;
    p.Some? && p.value < |t.nodes| && |t.nodes[p.value].keys| < t.order - 1
  }

  /**
    Line 108 of `insert_into_parent`, the parent having room: the promoted
    key goes into the parent at its sorted position with `right` as the
    child to its right. As written the line leaves `right`'s parent link as
    it was; corrected, it names the parent.
  */
  function InsertIntoParentNode<V>(t: Tree<V>, p: nat, right: nat, key: Key, rev: Revision): (r: Tree<V>)
    requires WellFormedExcept(t, right) && p < |t.nodes| && right < |t.nodes| && right != t.root
    requires !t.nodes[p].isLeaf && |t.nodes[p].keys| < t.order - 1
    requires t.nodes[right].level + 1 == t.nodes[p].level && Unlinked(t, right)
    requires rev == AsWritten ==> t.nodes[right].parent.Some?
    ensures
      && Extends(t, r) && |r.nodes| == |t.nodes| && r.root == t.root
      && (assert NodeShape(t, p); r.nodes[p] == InsertIntoNodeNoSplit(t.nodes[p], key, Child(right)))
      && r.nodes[right] == (if rev == Corrected then t.nodes[right].(parent := Some(p)) else t.nodes[right])
      && (forall n :: 0 <= n < |t.nodes| && n != p && n != right ==> r.nodes[n] == t.nodes[n])
      && WellFormed(r)
      && (rev == Corrected && BackLinks(t) ==> BackLinks(r))
  {
    assert NodeShape(t, p);
    var nodes := t.nodes[p := InsertIntoNodeNoSplit(t.nodes[p], key, Child(right))];
    var r := t.(nodes := if rev == Corrected then nodes[right := nodes[right].(parent := Some(p))] else nodes);
    InsertIntoParentNodeProof(t, p, right, key, rev, r);
    r
  }

  /** The parent after the room-case insertion lists its old children with `right` inserted after position `i`. */
  lemma InsertedChildren(old_: seq<nat>, q: seq<nat>, i: nat, right: nat, j: nat)
    requires i < |old_| && q == old_[..i + 1] + [right] + old_[i + 1..] && j < |q|
    ensures q[j] == (if j <= i then old_[j] else if j == i + 1 then right else old_[j - 1])
  {
  }

  lemma InsertIntoParentNodeProof<V>(t: Tree<V>, p: nat, right: nat, key: Key, rev: Revision, r: Tree<V>)
    requires WellFormedExcept(t, right) && p < |t.nodes| && right < |t.nodes| && right != t.root
    requires !t.nodes[p].isLeaf && |t.nodes[p].keys| < t.order - 1
    requires t.nodes[right].level + 1 == t.nodes[p].level && Unlinked(t, right)
    requires rev == AsWritten ==> t.nodes[right].parent.Some?
    requires NodeShape(t, p)
    requires var nodes := t.nodes[p := InsertIntoNodeNoSplit(t.nodes[p], key, Child(right))];
      r == t.(nodes := if rev == Corrected then nodes[right := nodes[right].(parent := Some(p))] else nodes)
    ensures Extends(t, r) && WellFormed(r) && (rev == Corrected && BackLinks(t) ==> BackLinks(r))
  {
    var nd := t.nodes[p];
    var i := InsertPos(nd.keys, key);
    var q := InsertIntoNodeNoSplit(nd, key, Child(right));
    RoomShapeParent(t, p, right, i, q, rev, r);
    RoomShapeOthers(t, p, right, q, rev, r);
    if rev == Corrected && BackLinks(t) {
      RoomBackLinks(t, p, right, i, q, r);
    }
  }

  /** The facts about the grown parent `q` that the room-case lemmas use. */
  ghost predicate GrownParent<V>(t: Tree<V>, p: nat, right: nat, i: nat, q: Node<V>, rev: Revision, r: Tree<V>)
    requires p < |t.nodes| && right < |t.nodes|
  {
    var nd := t.nodes[p];
    && i < |nd.children|
    && q.children == nd.children[..i + 1] + [right] + nd.children[i + 1..]
    && !q.isLeaf && q.level == nd.level && q.parent == nd.parent && q.next == nd.next && q.values == nd.values
    && |q.keys| == |nd.keys| + 1
    && Sorted(q.keys)
    && r == t.(nodes := if rev == Corrected then t.nodes[p := q][right := t.nodes[right].(parent := Some(p))] else t.nodes[p := q])
  }

  lemma RoomShapeParent<V>(t: Tree<V>, p: nat, right: nat, i: nat, q: Node<V>, rev: Revision, r: Tree<V>)
    requires WellFormedExcept(t, right) && p < |t.nodes| && right < |t.nodes| && p != right
    requires !t.nodes[p].isLeaf && |t.nodes[p].keys| < t.order - 1
    requires t.nodes[right].level + 1 == t.nodes[p].level
    requires GrownParent(t, p, right, i, q, rev, r)
    ensures Extends(t, r) && NodeShape(r, p)
  {
    var nd := t.nodes[p];
    assert NodeShape(t, p);
    forall j | 0 <= j < |q.children|
      ensures q.children[j] < |r.nodes| && r.nodes[q.children[j]].level + 1 == q.level
    {
      InsertedChildren(nd.children, q.children, i, right, j);
    }
    assert r.nodes[p] == q;
    ParentStable(t, r, p);
  }

  lemma RoomShapeOthers<V>(t: Tree<V>, p: nat, right: nat, q: Node<V>, rev: Revision, r: Tree<V>)
    requires WellFormedExcept(t, right) && p < |t.nodes| && right < |t.nodes| && p != right && right != t.root
    requires !t.nodes[p].isLeaf && t.nodes[right].level + 1 == t.nodes[p].level
    requires rev == AsWritten ==> t.nodes[right].parent.Some?
    requires !q.isLeaf && q.level == t.nodes[p].level && q.parent == t.nodes[p].parent
    requires r == t.(nodes := if rev == Corrected then t.nodes[p := q][right := t.nodes[right].(parent := Some(p))] else t.nodes[p := q])
    ensures Extends(t, r)
    ensures forall n :: 0 <= n < |r.nodes| && n != p ==> NodeShape(r, n)
    ensures r.nodes[r.root].parent == None
    ensures forall n :: 0 <= n < |r.nodes| && n != r.root ==> r.nodes[n].parent.Some?
    ensures forall n :: 0 <= n < |r.nodes| ==> r.nodes[n].level <= r.nodes[r.root].level
  {
    forall n | 0 <= n < |r.nodes| && n != p
      ensures NodeShape(r, n)
    {
      RoomShapeOther(t, p, right, q, rev, r, n);
    }
  }

  lemma RoomShapeOther<V>(t: Tree<V>, p: nat, right: nat, q: Node<V>, rev: Revision, r: Tree<V>, n: nat)
    requires WellFormedExcept(t, right) && p < |t.nodes| && right < |t.nodes| && p != right
    requires !t.nodes[p].isLeaf && t.nodes[right].level + 1 == t.nodes[p].level
    requires !q.isLeaf && q.level == t.nodes[p].level
    requires r == t.(nodes := if rev == Corrected then t.nodes[p := q][right := t.nodes[right].(parent := Some(p))] else t.nodes[p := q])
    requires n < |t.nodes| && n != p
    ensures NodeShape(r, n)
  {
    assert NodeShape(t, n);
    ContentStable(t, r, n);
    if n != right || rev == AsWritten {
      ParentStable(t, r, n);
    }
  }

  lemma RoomBackLinks<V>(t: Tree<V>, p: nat, right: nat, i: nat, q: Node<V>, r: Tree<V>)
    requires p < |t.nodes| && right < |t.nodes| && p != right
    requires BackLinks(t) && Unlinked(t, right)
    requires GrownParent(t, p, right, i, q, Corrected, r)
    ensures BackLinks(r)
  {
    var nd := t.nodes[p];
    forall n, j | 0 <= n < |r.nodes| && 0 <= j < |r.nodes[n].children| && r.nodes[n].children[j] < |r.nodes|
      ensures r.nodes[r.nodes[n].children[j]].parent == Some(n)
    {
      RoomLink(t, p, right, i, q, r, n, j);
    }
    forall n, j, k | 0 <= n < |r.nodes| && 0 <= j < k < |r.nodes[n].children|
      ensures r.nodes[n].children[j] != r.nodes[n].children[k]
    {
      if n == p {
        InsertedChildren(nd.children, q.children, i, right, j);
        InsertedChildren(nd.children, q.children, i, right, k);
      }
    }
  }

  /** After the corrected room-case insertion, the `j`-th child of node `n` links back to `n`. */
  lemma RoomLink<V>(t: Tree<V>, p: nat, right: nat, i: nat, q: Node<V>, r: Tree<V>, n: nat, j: nat)
    requires p < |t.nodes| && right < |t.nodes| && p != right
    requires BackLinks(t) && Unlinked(t, right)
    requires GrownParent(t, p, right, i, q, Corrected, r)
    requires n < |r.nodes| && j < |r.nodes[n].children|
    ensures r.nodes[n].children[j] < |r.nodes| ==> r.nodes[r.nodes[n].children[j]].parent == Some(n)
  {
    if n == p {
      InsertedChildren(t.nodes[p].children, q.children, i, right, j);
    }
  }

  // ---------------------------------------------------------------- internal split

  /** The loop at lines 162-164: every node in `cs` gets `p` as its parent. */
  function Reparent<V>(nodes: seq<Node<V>>, cs: seq<nat>, p: nat): (r: seq<Node<V>>)
    ensures |r| == |nodes|
    ensures forall n :: 0 <= n < |nodes| ==> r[n] == if n in cs then nodes[n].(parent := Some(p)) else nodes[n]
  {
    seq(|nodes|, n requires 0 <= n < |nodes| => if n in cs then nodes[n].(parent := Some(p)) else nodes[n])
  }

  /**
    Lines 145-166 of `split_internal_node`, before the promotion, with
    `mid = (order - 1) / 2`: the node keeps keys `[0, mid)` and children
    `[0, mid]`; a new internal node on the same level gets keys `(mid, n)`
    and children `(mid, n]`, and every moved child's parent link names it;
    `keys[mid]` is in neither node. The new node starts with the old node's
    parent. `SplitExact` states the resulting arena node by node.
  */
  function SplitInternalHalves<V>(t: Tree<V>, node: nat): (r: Tree<V>)
    requires WellFormed(t) && node < |t.nodes|
    requires !t.nodes[node].isLeaf && |t.nodes[node].keys| == t.order - 1
    ensures var nd, sib, mid := t.nodes[node], |t.nodes|, (t.order - 1) / 2;
      && mid < |nd.keys| && |nd.children| == |nd.keys| + 1
      && Extends(t, r) && |r.nodes| == sib + 1 && r.root == t.root
      && WellFormedExcept(r, sib) && Unlinked(r, sib)
      && Entries(r.nodes) == Entries(t.nodes)
      && (BackLinks(t) ==> BackLinks(r))
      && SplitExact(t, node, r) && SplitFrame(t, node, r)
  {
    SplitInternalAll(t, node);
    InternalSplitArena(t, node)
  }

  /** The arena `SplitInternalHalves` builds. */
  function InternalSplitArena<V>(t: Tree<V>, node: nat): Tree<V>
    requires node < |t.nodes| && 0 <= (t.order - 1) / 2 < |t.nodes[node].keys|
    requires |t.nodes[node].children| == |t.nodes[node].keys| + 1
  {
    var nd, sib, mid := t.nodes[node], |t.nodes|, (t.order - 1) / 2;
    var left := nd.(keys := nd.keys[..mid], children := nd.children[..mid + 1]);
    var right := Node(false, nd.keys[mid + 1..], nd.children[mid + 1..], [], nd.parent, None, nd.level);
    t.(nodes := Reparent(t.nodes[node := left] + [right], right.children, sib))
  }

  /** Everything `SplitInternalHalves` promises, for the arena it builds. */
  lemma SplitInternalAll<V>(t: Tree<V>, node: nat)
    requires WellFormed(t) && node < |t.nodes|
    requires !t.nodes[node].isLeaf && |t.nodes[node].keys| == t.order - 1
    ensures 0 <= (t.order - 1) / 2 < |t.nodes[node].keys| && |t.nodes[node].children| == |t.nodes[node].keys| + 1
    ensures var r, nd, sib, mid := InternalSplitArena(t, node), t.nodes[node], |t.nodes|, (t.order - 1) / 2;
      && mid < |nd.keys| && |nd.children| == |nd.keys| + 1
      && Extends(t, r) && |r.nodes| == sib + 1 && r.root == t.root
      && WellFormedExcept(r, sib) && Unlinked(r, sib)
      && Entries(r.nodes) == Entries(t.nodes)
      && (BackLinks(t) ==> BackLinks(r))
      && SplitExact(t, node, r) && SplitFrame(t, node, r)
  {
    assert NodeShape(t, node);
    var r := InternalSplitArena(t, node);
    assert IsInternalSplit(t, node, r);
    assert t.nodes[node].level <= t.nodes[t.root].level;
    SplitInternalNodes(t, node, r);
    SplitInternalFrame(t, node, r);
    SplitInternalShape(t, node, r);
    SplitInternalEntries(t, node, r);
    SplitInternalBackLinks(t, node, r);
  }

  /** The shape of `SplitInternalHalves`'s result, shared by the lemmas below. */
  ghost predicate IsInternalSplit<V>(t: Tree<V>, node: nat, r: Tree<V>)
    requires node < |t.nodes|
  {
    var nd, sib, mid := t.nodes[node], |t.nodes|, (t.order - 1) / 2;
    && 0 <= mid < |nd.keys| && |nd.children| == |nd.keys| + 1
    && r == t.(nodes := Reparent(t.nodes[node := nd.(keys := nd.keys[..mid], children := nd.children[..mid + 1])]
                                   + [Node(false, nd.keys[mid + 1..], nd.children[mid + 1..], [], nd.parent, None, nd.level)],
                                 nd.children[mid + 1..], sib))
  }

  /** Node by node, what an internal split of `node` leaves in the arena. */
  ghost predicate SplitExact<V>(t: Tree<V>, node: nat, r: Tree<V>)
    requires node < |t.nodes|
  {
    var nd, sib, mid := t.nodes[node], |t.nodes|, (t.order - 1) / 2;
    && 0 <= mid < |nd.keys| && |nd.children| == |nd.keys| + 1
    && |r.nodes| == sib + 1 && r.root == t.root && r.order == t.order
    && node !in nd.children[mid + 1..] && t.root !in nd.children[mid + 1..]
    && r.nodes[node] == nd.(keys := nd.keys[..mid], children := nd.children[..mid + 1])
    && r.nodes[sib] == Node(false, nd.keys[mid + 1..], nd.children[mid + 1..], [], nd.parent, None, nd.level)
    && (forall n :: 0 <= n < sib && n != node ==>
          r.nodes[n] == if n in nd.children[mid + 1..] then t.nodes[n].(parent := Some(sib)) else t.nodes[n])
  }

  /** What an internal split of `node` leaves in the arena, up to parent links. */
  ghost predicate SplitFrame<V>(t: Tree<V>, node: nat, r: Tree<V>)
    requires node < |t.nodes|
  {
    var nd, sib, mid := t.nodes[node], |t.nodes|, (t.order - 1) / 2;
    && 0 <= mid < |nd.keys| && |nd.children| == |nd.keys| + 1
    && |r.nodes| == sib + 1 && r.root == t.root && r.order == t.order
    && r.nodes[node] == nd.(keys := nd.keys[..mid], children := nd.children[..mid + 1])
    && r.nodes[sib] == Node(false, nd.keys[mid + 1..], nd.children[mid + 1..], [], nd.parent, None, nd.level)
    && (forall n :: 0 <= n < sib && n != node ==>
          && SameButParent(t, r, n)
          && (r.nodes[n].parent == t.nodes[n].parent
              || (r.nodes[n].parent == Some(sib) && t.nodes[n].level + 1 == nd.level)))
  }

  /** `SplitExact` fixes the whole arena: two trees it describes are the same. */
  lemma SplitExactUnique<V>(t: Tree<V>, node: nat, a: Tree<V>, b: Tree<V>)
    requires node < |t.nodes| && SplitExact(t, node, a) && SplitExact(t, node, b)
    ensures a == b
  {
    forall n | 0 <= n < |a.nodes|
      ensures a.nodes[n] == b.nodes[n]
    {
      if n != node && n != |t.nodes| {
        assert n < |t.nodes|;
      }
    }
  }

  /** The children an internal split moves are arena nodes one level down, so neither the split node nor the root. */
  lemma MovedOut<V>(t: Tree<V>, node: nat)
    requires node < |t.nodes| && t.root < |t.nodes| && !t.nodes[node].isLeaf && ContentShape(t, node)
    requires t.nodes[node].level <= t.nodes[t.root].level
    requires (t.order - 1) / 2 < |t.nodes[node].keys|
    ensures var nd, mid := t.nodes[node], (t.order - 1) / 2;
      && node !in nd.children[mid + 1..] && t.root !in nd.children[mid + 1..]
      && |t.nodes| !in nd.children[mid + 1..]
  {
    var nd, mid := t.nodes[node], (t.order - 1) / 2;
    var moved := nd.children[mid + 1..];
    forall j | 0 <= j < |moved|
      ensures moved[j] != node && moved[j] != t.root && moved[j] != |t.nodes|
    {
      assert moved[j] == nd.children[mid + 1 + j];
    }
  }

  lemma SplitInternalNodes<V>(t: Tree<V>, node: nat, r: Tree<V>)
    requires node < |t.nodes| && t.root < |t.nodes| && !t.nodes[node].isLeaf && ContentShape(t, node)
    requires t.nodes[node].level <= t.nodes[t.root].level
    requires IsInternalSplit(t, node, r)
    ensures SplitExact(t, node, r)
  {
    var nd, sib, mid := t.nodes[node], |t.nodes|, (t.order - 1) / 2;
    var moved := nd.children[mid + 1..];
    var left := nd.(keys := nd.keys[..mid], children := nd.children[..mid + 1]);
    var right := Node(false, nd.keys[mid + 1..], moved, [], nd.parent, None, nd.level);
    var u := t.nodes[node := left] + [right];
    assert r.nodes == Reparent(u, moved, sib);
    MovedOut(t, node);
    assert r.nodes[node] == u[node] == left;
    assert r.nodes[sib] == u[sib] == right;
    forall n | 0 <= n < sib && n != node
      ensures r.nodes[n] == if n in moved then t.nodes[n].(parent := Some(sib)) else t.nodes[n]
    {
      assert u[n] == t.nodes[n];
    }
  }

  lemma SplitInternalFrame<V>(t: Tree<V>, node: nat, r: Tree<V>)
    requires node < |t.nodes| && ContentShape(t, node) && SplitExact(t, node, r)
    ensures SplitFrame(t, node, r)
  {
    var nd, sib, mid := t.nodes[node], |t.nodes|, (t.order - 1) / 2;
    var moved := nd.children[mid + 1..];
    forall n | 0 <= n < sib && n != node
      ensures SameButParent(t, r, n)
      ensures r.nodes[n].parent == t.nodes[n].parent || (r.nodes[n].parent == Some(sib) && t.nodes[n].level + 1 == nd.level)
    {
      if n in moved {
        var j :| 0 <= j < |moved| && moved[j] == n;
        assert moved[j] == nd.children[mid + 1 + j];
      }
    }
  }

  lemma SplitInternalShape<V>(t: Tree<V>, node: nat, r: Tree<V>)
    requires WellFormed(t) && node < |t.nodes| && !t.nodes[node].isLeaf
    requires SplitFrame(t, node, r)
    ensures Extends(t, r) && WellFormedExcept(r, |t.nodes|) && Unlinked(r, |t.nodes|)
  {
    forall n | 0 <= n < |r.nodes|
      ensures NodeShape(r, n)
    {
      if n == |t.nodes| {
        SplitInternalSiblingShape(t, node, r);
      } else if n == node {
        SplitInternalKeptShape(t, node, r);
      } else {
        SplitInternalOtherShape(t, node, r, n);
      }
    }
    SplitInternalUnlinked(t, node, r);
  }

  lemma SplitInternalOtherShape<V>(t: Tree<V>, node: nat, r: Tree<V>, n: nat)
    requires WellFormed(t) && node < |t.nodes| && !t.nodes[node].isLeaf
    requires SplitFrame(t, node, r) && n < |t.nodes| && n != node
    ensures NodeShape(r, n)
  {
    assert NodeShape(t, n);
    ContentStable(t, r, n);
    if r.nodes[n].parent == t.nodes[n].parent {
      ParentStable(t, r, n);
    }
  }

  lemma SplitInternalSiblingShape<V>(t: Tree<V>, node: nat, r: Tree<V>)
    requires WellFormed(t) && node < |t.nodes| && !t.nodes[node].isLeaf
    requires SplitFrame(t, node, r)
    ensures NodeShape(r, |t.nodes|)
  {
    var nd, sib, mid := t.nodes[node], |t.nodes|, (t.order - 1) / 2;
    assert NodeShape(t, node);
    var sn := r.nodes[sib];
    assert Sorted(sn.keys) by {
      forall a, b | 0 <= a < b < |sn.keys|
        ensures LessEq(sn.keys[a], sn.keys[b])
      {
        assert sn.keys[a] == nd.keys[mid + 1 + a] && sn.keys[b] == nd.keys[mid + 1 + b];
      }
    }
    forall j | 0 <= j < |sn.children|
      ensures sn.children[j] < |r.nodes| && r.nodes[sn.children[j]].level + 1 == sn.level
    {
      var c := nd.children[mid + 1 + j];
      assert sn.children[j] == c;
      assert c < sib && t.nodes[c].level + 1 == nd.level;
      if c != node {
        assert SameButParent(t, r, c);
      }
    }
    assert ContentShape(r, sib);
    if nd.parent.Some? {
      var p := nd.parent.value;
      assert p != sib && p < sib;
      if p != node {
        assert SameButParent(t, r, p);
      }
    }
  }

  lemma SplitInternalKeptShape<V>(t: Tree<V>, node: nat, r: Tree<V>)
    requires WellFormed(t) && node < |t.nodes| && !t.nodes[node].isLeaf
    requires SplitFrame(t, node, r)
    ensures NodeShape(r, node)
  {
    var nd, sib, mid := t.nodes[node], |t.nodes|, (t.order - 1) / 2;
    assert NodeShape(t, node);
    var ln := r.nodes[node];
    assert Sorted(ln.keys) by {
      forall a, b | 0 <= a < b < |ln.keys|
        ensures LessEq(ln.keys[a], ln.keys[b])
      {
        assert ln.keys[a] == nd.keys[a] && ln.keys[b] == nd.keys[b];
      }
    }
    forall j | 0 <= j < |ln.children|
      ensures ln.children[j] < |r.nodes| && r.nodes[ln.children[j]].level + 1 == ln.level
    {
      var c := nd.children[j];
      assert ln.children[j] == c;
      assert c < sib && t.nodes[c].level + 1 == nd.level;
      if c != node {
        assert SameButParent(t, r, c);
      }
    }
    assert ContentShape(r, node);
    if nd.parent.Some? {
      var p := nd.parent.value;
      assert p != node && p < sib;
      assert SameButParent(t, r, p);
    }
  }

  lemma SplitInternalUnlinked<V>(t: Tree<V>, node: nat, r: Tree<V>)
    requires WellFormed(t) && node < |t.nodes| && !t.nodes[node].isLeaf
    requires SplitFrame(t, node, r)
    ensures Unlinked(r, |t.nodes|)
  {
    var nd, sib, mid := t.nodes[node], |t.nodes|, (t.order - 1) / 2;
    assert NodeShape(t, node);
    forall n, i | 0 <= n < |r.nodes| && 0 <= i < |r.nodes[n].children|
      ensures r.nodes[n].children[i] != sib
    {
      if n == sib {
        assert r.nodes[n].children[i] == nd.children[mid + 1 + i];
      } else if n == node {
        assert r.nodes[n].children[i] == nd.children[i];
      } else {
        assert NodeShape(t, n) && SameButParent(t, r, n);
        assert r.nodes[n].children[i] == t.nodes[n].children[i];
      }
    }
  }

  lemma SplitInternalEntries<V>(t: Tree<V>, node: nat, r: Tree<V>)
    requires node < |t.nodes| && !t.nodes[node].isLeaf
    requires IsInternalSplit(t, node, r)
    ensures Entries(r.nodes) == Entries(t.nodes)
  {
    var nd, sib, mid := t.nodes[node], |t.nodes|, (t.order - 1) / 2;
    var u := t.nodes[node := nd.(keys := nd.keys[..mid], children := nd.children[..mid + 1])]
               + [Node(false, nd.keys[mid + 1..], nd.children[mid + 1..], [], nd.parent, None, nd.level)];
    EntriesSplit(t.nodes, node, u[node], u[sib]);
    assert u == t.nodes[node := u[node]] + [u[sib]];
    EntriesSame(u, r.nodes);
  }

  lemma SplitInternalBackLinks<V>(t: Tree<V>, node: nat, r: Tree<V>)
    requires WellFormed(t) && node < |t.nodes| && !t.nodes[node].isLeaf
    requires SplitExact(t, node, r)
    ensures BackLinks(t) ==> BackLinks(r)
  {
    if BackLinks(t) {
      forall n, i | 0 <= n < |r.nodes| && 0 <= i < |r.nodes[n].children| && r.nodes[n].children[i] < |r.nodes|
        ensures r.nodes[r.nodes[n].children[i]].parent == Some(n)
      {
        SplitInternalLink(t, node, r, n, i);
      }
      forall n, i, j | 0 <= n < |r.nodes| && 0 <= i < j < |r.nodes[n].children|
        ensures r.nodes[n].children[i] != r.nodes[n].children[j]
      {
        var nd, mid := t.nodes[node], (t.order - 1) / 2;
        if n == |t.nodes| {
          assert r.nodes[n].children[i] == nd.children[mid + 1 + i] && r.nodes[n].children[j] == nd.children[mid + 1 + j];
        } else if n == node {
          assert r.nodes[n].children[i] == nd.children[i] && r.nodes[n].children[j] == nd.children[j];
        }
      }
    }
  }

  /** After the split, the `i`-th child of node `n` links back to `n`. */
  lemma SplitInternalLink<V>(t: Tree<V>, node: nat, r: Tree<V>, n: nat, i: nat)
    requires WellFormed(t) && BackLinks(t) && node < |t.nodes| && !t.nodes[node].isLeaf
    requires SplitExact(t, node, r)
    requires n < |r.nodes| && i < |r.nodes[n].children|
    ensures r.nodes[n].children[i] < |r.nodes| ==> r.nodes[r.nodes[n].children[i]].parent == Some(n)
  {
    var nd, sib, mid := t.nodes[node], |t.nodes|, (t.order - 1) / 2;
    var c := r.nodes[n].children[i];
    if n == sib {
      SplitLinkMoved(t, node, r, i);
    } else if n == node {
      SplitLinkKept(t, node, r, i);
    } else {
      SplitLinkOther(t, node, r, n, i);
    }
  }

  lemma SplitLinkMoved<V>(t: Tree<V>, node: nat, r: Tree<V>, i: nat)
    requires WellFormed(t) && node < |t.nodes| && !t.nodes[node].isLeaf
    requires SplitExact(t, node, r) && i < |r.nodes[|t.nodes|].children|
    ensures r.nodes[|t.nodes|].children[i] < |r.nodes| && r.nodes[r.nodes[|t.nodes|].children[i]].parent == Some(|t.nodes|)
  {
    var nd, sib, mid := t.nodes[node], |t.nodes|, (t.order - 1) / 2;
    assert NodeShape(t, node);
    var c := nd.children[mid + 1 + i];
    assert r.nodes[sib].children[i] == c && c in nd.children[mid + 1..];
    assert c < sib && c != node;
  }

  lemma SplitLinkKept<V>(t: Tree<V>, node: nat, r: Tree<V>, i: nat)
    requires WellFormed(t) && BackLinks(t) && node < |t.nodes| && !t.nodes[node].isLeaf
    requires SplitExact(t, node, r) && i < |r.nodes[node].children|
    ensures r.nodes[node].children[i] < |r.nodes| && r.nodes[r.nodes[node].children[i]].parent == Some(node)
  {
    var nd, sib, mid := t.nodes[node], |t.nodes|, (t.order - 1) / 2;
    var moved := nd.children[mid + 1..];
    assert NodeShape(t, node);
    var c := nd.children[i];
    assert r.nodes[node].children[i] == c && c < sib && c != node;
    assert c !in moved by {
      forall j | 0 <= j < |moved|
        ensures moved[j] != c
      {
        assert moved[j] == nd.children[mid + 1 + j];
      }
    }
  }

  lemma SplitLinkOther<V>(t: Tree<V>, node: nat, r: Tree<V>, n: nat, i: nat)
    requires WellFormed(t) && BackLinks(t) && node < |t.nodes| && !t.nodes[node].isLeaf
    requires SplitExact(t, node, r) && n < |t.nodes| && n != node && i < |r.nodes[n].children|
    ensures r.nodes[n].children[i] < |r.nodes| ==> r.nodes[r.nodes[n].children[i]].parent == Some(n)
  {
    var nd, sib, mid := t.nodes[node], |t.nodes|, (t.order - 1) / 2;
    var moved := nd.children[mid + 1..];
    assert NodeShape(t, n);
    var c := t.nodes[n].children[i];
    assert r.nodes[n].children[i] == c && c < sib && t.nodes[c].parent == Some(n);
    assert c != node ==> c !in moved by {
      forall j | 0 <= j < |moved|
        ensures moved[j] != c
      {
        assert NodeShape(t, node);
        assert moved[j] == nd.children[mid + 1 + j];
        assert t.nodes[moved[j]].parent == Some(node);
      }
    }
  }

  // ---------------------------------------------------------------- promotion and the split cascade

  /** One level above the root: the highest level a promotion started in `t` can reach. */
  function Ceiling<V>(t: Tree<V>): int
    requires t.root < |t.nodes|
  {
    t.nodes[t.root].level + 1
  }

  /**
    What `insert_into_parent(tree, left, right, key)` needs on entry: `right`
    is a new node on `left`'s level that no node lists as a child yet, and
    it is the only node other than the root that may lack a parent link.
    `top` bounds how high the cascade can reach; the C code has no such
    argument, it only makes termination visible.
  */
  ghost predicate Promoting<V>(t: Tree<V>, left: nat, right: nat, top: int) {
    && WellFormedExcept(t, right)
    && left < |t.nodes| && right < |t.nodes| && left != right && right != t.root
    && t.nodes[right].level == t.nodes[left].level && Unlinked(t, right)
    && (t.nodes[left].parent.Some? ==> t.nodes[right].parent.Some?)
    && t.nodes[t.root].level + (if Roomy(t, left) then 0 else 1) <= top
  }

  /**
    What `split_internal_node(tree, node)` leaves behind, whatever the
    promotion above it did: `node` keeps keys `[0, mid)` and children
    `[0, mid]`, the node appended at `|t.nodes|` holds keys `(mid, n)` and
    children `(mid, n]`, the moved children name the new node as parent,
    the rest of `node`'s level changes parent links only, lower levels not
    at all, and all other new nodes lie above `node`'s level.
  */
  ghost predicate SplitOutcome<V>(t: Tree<V>, node: nat, r: Tree<V>)
    requires WellFormed(t) && node < |t.nodes| && !t.nodes[node].isLeaf && |t.nodes[node].keys| == t.order - 1
  {
    assert NodeShape(t, node);
    var nd, sib, mid := t.nodes[node], |t.nodes|, (t.order - 1) / 2;
    var moved := nd.children[mid + 1..];
    && Extends(t, r) && sib < |r.nodes|
    && r.nodes[node].(parent := nd.parent) == nd.(keys := nd.keys[..mid], children := nd.children[..mid + 1])
    && r.nodes[sib].(parent := None) == Node(false, nd.keys[mid + 1..], moved, [], None, None, nd.level)
    && (forall n :: 0 <= n < sib && n != node && t.nodes[n].level == nd.level ==> SameButParent(t, r, n))
    && (forall n :: 0 <= n < sib && t.nodes[n].level + 1 == nd.level ==>
          r.nodes[n] == if n in moved then t.nodes[n].(parent := Some(sib)) else t.nodes[n])
    && (forall n :: 0 <= n < sib && t.nodes[n].level + 1 < nd.level ==> r.nodes[n] == t.nodes[n])
    && (forall n :: sib < n < |r.nodes| ==> !r.nodes[n].isLeaf && r.nodes[n].level > nd.level)
  }

  /** The parent of `left` holds `key` with `right` as the child immediately to its right. */
  ghost predicate KeyBeside<V>(r: Tree<V>, left: nat, key: Key, right: nat)
    requires left < |r.nodes|
  {
    var p := r.nodes[left].parent;
    && p.Some? && p.value < |r.nodes|
    && exists j :: 0 <= j < |r.nodes[p.value].keys| && j + 1 < |r.nodes[p.value].children|
         && r.nodes[p.value].keys[j] == key && r.nodes[p.value].children[j + 1] == right
  }

  /**
    What a finished promotion of `key` and `right` next to `left` guarantees:
    the tree is well formed again, nothing below `left`'s level changed and
    on that level only parent links did; `left` has a parent that holds
    `key` with `right` as the child to its right (and, corrected, `right`
    links back to it); the root moves only if the parent was full, and then
    by at most one level.
  */
  ghost predicate Promoted<V>(t: Tree<V>, left: nat, right: nat, key: Key, rev: Revision, r: Tree<V>)
    requires left < |t.nodes| && right < |t.nodes| && t.root < |t.nodes|
  {
    && WellFormed(r) && FramedAbove(t, r, t.nodes[left].level)
    && r.nodes[left].parent.Some? && r.nodes[left].parent.value < |r.nodes|
    && right in r.nodes[r.nodes[left].parent.value].children
    && KeyBeside(r, left, key, right)
    && (rev == Corrected ==> r.nodes[right].parent == r.nodes[left].parent)
    && (Roomy(t, left) ==> r.root == t.root)
    && r.nodes[r.root].level <= t.nodes[t.root].level + 1
    && (rev == Corrected && BackLinks(t) ==> BackLinks(r))
  }

  /**
    `insert_into_parent` (lines 89-119): with no parent, a new root above
    `left` and `right`; with a parent that has room, the room-case insertion;
    with a full parent, split the parent first and try again.
  */
  function InsertIntoParent<V>(t: Tree<V>, left: nat, right: nat, key: Key, top: int, rev: Revision): (r: Tree<V>)
    requires Promoting(t, left, right, top)
    ensures Promoted(t, left, right, key, rev, r)
    decreases top - t.nodes[left].level, if Roomy(t, left) then 0 else 1
  {
    match t.nodes[left].parent
    case None =>
      assert left == t.root;
      var r := GrowRoot(t, left, right, key);
      GrowPromoted(t, left, right, key, top, rev, r);
      r
    case Some(p) =>
      assert NodeShape(t, left) && NodeShape(t, p);
      if |t.nodes[p].keys| < t.order - 1 then
        var r := InsertIntoParentNode(t, p, right, key, rev);
        RoomPromoted(t, left, right, key, top, rev, p, r);
        r
      else
        assert WellFormed(t);
        var t2 := SplitInternalNode(t, p, top, rev);
        RetryReady(t, left, right, top, p, t2);
        var r := InsertIntoParent(t2, left, right, key, top, rev);
        RetryPromoted(t, left, right, key, top, rev, p, t2, r);
        r
  }

  lemma GrowPromoted<V>(t: Tree<V>, left: nat, right: nat, key: Key, top: int, rev: Revision, r: Tree<V>)
    requires Promoting(t, left, right, top) && t.nodes[left].parent.None? && left == t.root
    requires r == GrowRoot(t, left, right, key)
    ensures Promoted(t, left, right, key, rev, r)
  {
    GrowFramed(t, left, right, key, r);
    assert r.nodes[r.root].keys[0] == key && r.nodes[r.root].children[1] == right;
  }

  lemma RoomPromoted<V>(t: Tree<V>, left: nat, right: nat, key: Key, top: int, rev: Revision, p: nat, r: Tree<V>)
    requires Promoting(t, left, right, top) && t.nodes[left].parent == Some(p)
    requires p < |t.nodes| && |t.nodes[p].keys| < t.order - 1
    requires !t.nodes[p].isLeaf && t.nodes[left].level + 1 == t.nodes[p].level
    requires r == InsertIntoParentNode(t, p, right, key, rev)
    ensures Promoted(t, left, right, key, rev, r)
  {
    assert NodeShape(t, left) && NodeShape(t, p);
    RoomFramed(t, left, p, right, key, rev, r);
  }

  lemma RetryPromoted<V>(t: Tree<V>, left: nat, right: nat, key: Key, top: int, rev: Revision, p: nat, t2: Tree<V>, r: Tree<V>)
    requires Promoting(t, left, right, top) && t.nodes[left].parent == Some(p) && !Roomy(t, left)
    requires WellFormed(t2) && FramedAbove(t, t2, t.nodes[left].level)
    requires t2.nodes[t2.root].level <= t.nodes[t.root].level + 1
    requires rev == Corrected && BackLinks(t) ==> BackLinks(t2)
    requires Promoting(t2, left, right, top) && Roomy(t2, left) && Promoted(t2, left, right, key, rev, r)
    ensures Promoted(t, left, right, key, rev, r)
  {
    FramedAboveTrans(t, t2, r, t.nodes[left].level, t.nodes[left].level);
  }

  /**
    `split_internal_node` (lines 144-168): split `node` at `mid = (order - 1) / 2`,
    then promote `keys[mid]` with `node` and the new node.
  */
  function SplitInternalNode<V>(t: Tree<V>, node: nat, top: int, rev: Revision): (r: Tree<V>)
    requires WellFormed(t) && node < |t.nodes| && !t.nodes[node].isLeaf && |t.nodes[node].keys| == t.order - 1
    requires t.nodes[t.root].level + 1 <= top
    ensures WellFormed(r) && SplitOutcome(t, node, r)
    ensures (t.order - 1) / 2 < |t.nodes[node].keys| && KeyBeside(r, node, t.nodes[node].keys[(t.order - 1) / 2], |t.nodes|)
    ensures r.nodes[r.root].level <= t.nodes[t.root].level + 1
    ensures rev == Corrected && BackLinks(t) ==> BackLinks(r)
    decreases top - t.nodes[node].level, 2
  {
    var t1 := SplitInternalHalves(t, node);
    var mid := (t.order - 1) / 2;
    var r := InsertIntoParent(t1, node, |t.nodes|, t.nodes[node].keys[mid], top, rev);
    SplitOutcomeProof(t, node, t1, r);
    r
  }

  lemma GrowFramed<V>(t: Tree<V>, left: nat, right: nat, key: Key, r: Tree<V>)
    requires WellFormedExcept(t, right) && left == t.root && right < |t.nodes| && right != left
    requires t.nodes[right].level == t.nodes[left].level && Unlinked(t, right)
    requires r == GrowRoot(t, left, right, key)
    ensures FramedAbove(t, r, t.nodes[left].level)
  {
    forall n | 0 <= n < |t.nodes| && t.nodes[n].level < t.nodes[left].level
      ensures r.nodes[n] == t.nodes[n]
    {
    }
  }

  lemma RoomFramed<V>(t: Tree<V>, left: nat, p: nat, right: nat, key: Key, rev: Revision, r: Tree<V>)
    requires WellFormedExcept(t, right) && p < |t.nodes| && right < |t.nodes| && right != t.root
    requires left < |t.nodes| && left != right && t.nodes[left].parent == Some(p)
    requires !t.nodes[p].isLeaf && |t.nodes[p].keys| < t.order - 1
    requires t.nodes[right].level == t.nodes[left].level && t.nodes[left].level + 1 == t.nodes[p].level && Unlinked(t, right)
    requires rev == AsWritten ==> t.nodes[right].parent.Some?
    requires r == InsertIntoParentNode(t, p, right, key, rev)
    ensures FramedAbove(t, r, t.nodes[left].level)
    ensures r.nodes[left].parent == Some(p) && right in r.nodes[p].children
    ensures KeyBeside(r, left, key, right)
  {
    assert NodeShape(t, p);
    var i := InsertPos(t.nodes[p].keys, key);
    assert r.nodes[p].children[i + 1] == right && r.nodes[p].keys[i] == key;
  }

  /** Splitting an internal node touches nothing below the level of its children, and there only parent links. */
  lemma SplitFramed<V>(t: Tree<V>, node: nat, r: Tree<V>)
    requires WellFormed(t) && node < |t.nodes| && !t.nodes[node].isLeaf && |t.nodes[node].keys| == t.order - 1
    requires SplitOutcome(t, node, r)
    ensures t.nodes[node].level >= 1 && FramedAbove(t, r, t.nodes[node].level - 1)
  {
    assert NodeShape(t, node);
    var nd, sib := t.nodes[node], |t.nodes|;
    forall n | 0 <= n < |t.nodes| && t.nodes[n].level == nd.level - 1
      ensures SameButParent(t, r, n)
    {
    }
    assert !r.nodes[sib].isLeaf && r.nodes[sib].level == nd.level;
  }

  /**
    After the full parent `p` of `left` has been split, the retry at line 117
    finds a parent with room: `left`'s parent link names `p` or the node split
    off from it, and each holds fewer than `order - 1` keys; `right` is still
    nobody's child.
  */
  lemma RetryReady<V>(t: Tree<V>, left: nat, right: nat, top: int, p: nat, t2: Tree<V>)
    requires Promoting(t, left, right, top) && WellFormed(t)
    requires t.nodes[left].parent == Some(p) && p < |t.nodes| && !Roomy(t, left)
    requires !t.nodes[p].isLeaf && |t.nodes[p].keys| == t.order - 1
    requires WellFormed(t2) && SplitOutcome(t, p, t2)
    requires t2.nodes[t2.root].level <= t.nodes[t.root].level + 1
    ensures Promoting(t2, left, right, top) && Roomy(t2, left)
    ensures FramedAbove(t, t2, t.nodes[left].level)
  {
    assert NodeShape(t, left);
    SplitFramed(t, p, t2);
    RetryRoomy(t, left, p, t2);
    RetryRight(t, right, p, t2);
    RetryUnlinked(t, right, p, t2);
  }

  lemma RetryRoomy<V>(t: Tree<V>, left: nat, p: nat, t2: Tree<V>)
    requires WellFormed(t) && left < |t.nodes| && t.nodes[left].parent == Some(p) && p < |t.nodes|
    requires !t.nodes[p].isLeaf && |t.nodes[p].keys| == t.order - 1
    requires t.nodes[left].level + 1 == t.nodes[p].level
    requires SplitOutcome(t, p, t2)
    ensures Roomy(t2, left)
  {
    assert NodeShape(t, p);
    var nd, sib, mid := t.nodes[p], |t.nodes|, (t.order - 1) / 2;
    assert |t2.nodes[p].keys| == mid && |t2.nodes[sib].keys| == t.order - 2 - mid;
  }

  lemma RetryRight<V>(t: Tree<V>, right: nat, p: nat, t2: Tree<V>)
    requires WellFormed(t) && right < |t.nodes| && Unlinked(t, right)
    requires p < |t.nodes| && !t.nodes[p].isLeaf && |t.nodes[p].keys| == t.order - 1
    requires t.nodes[right].level + 1 == t.nodes[p].level
    requires WellFormed(t2) && SplitOutcome(t, p, t2)
    ensures t2.nodes[right] == t.nodes[right]
  {
    assert NodeShape(t, p);
    var nd, mid := t.nodes[p], (t.order - 1) / 2;
    var moved := nd.children[mid + 1..];
    assert right !in moved by {
      forall j | 0 <= j < |moved|
        ensures moved[j] != right
      {
        assert moved[j] == nd.children[mid + 1 + j];
      }
    }
  }

  lemma RetryUnlinked<V>(t: Tree<V>, right: nat, p: nat, t2: Tree<V>)
    requires WellFormed(t) && right < |t.nodes| && Unlinked(t, right)
    requires p < |t.nodes| && !t.nodes[p].isLeaf && |t.nodes[p].keys| == t.order - 1
    requires t.nodes[right].level + 1 == t.nodes[p].level
    requires WellFormed(t2) && SplitOutcome(t, p, t2)
    ensures Unlinked(t2, right)
  {
    assert NodeShape(t, p);
    var nd, sib, mid := t.nodes[p], |t.nodes|, (t.order - 1) / 2;
    forall n, i | 0 <= n < |t2.nodes| && 0 <= i < |t2.nodes[n].children|
      ensures t2.nodes[n].children[i] != right
    {
      assert NodeShape(t2, n);
    }
  }

  /** Putting the internal split and the promotion above it together gives `SplitOutcome`. */
  lemma SplitOutcomeProof<V>(t: Tree<V>, node: nat, t1: Tree<V>, r: Tree<V>)
    requires WellFormed(t) && node < |t.nodes| && !t.nodes[node].isLeaf && |t.nodes[node].keys| == t.order - 1
    requires t1 == SplitInternalHalves(t, node)
    requires FramedAbove(t1, r, t.nodes[node].level)
    ensures SplitOutcome(t, node, r)
  {
    SplitOutcomeFrom(t, node, t1, r);
  }

  lemma SplitOutcomeFrom<V>(t: Tree<V>, node: nat, t1: Tree<V>, r: Tree<V>)
    requires WellFormed(t) && node < |t.nodes| && !t.nodes[node].isLeaf && |t.nodes[node].keys| == t.order - 1
    requires SplitExact(t, node, t1) && SplitFrame(t, node, t1)
    requires FramedAbove(t1, r, t.nodes[node].level)
    ensures SplitOutcome(t, node, r)
  {
    var nd, sib, mid := t.nodes[node], |t.nodes|, (t.order - 1) / 2;
    assert NodeShape(t, node);
    assert SameButParent(t1, r, node) && SameButParent(t1, r, sib);
    forall n | 0 <= n < sib && n != node && t.nodes[n].level == nd.level
      ensures SameButParent(t, r, n)
    {
      assert SameButParent(t1, r, n);
    }
    forall n | 0 <= n < sib && t.nodes[n].level + 1 < nd.level
      ensures r.nodes[n] == t.nodes[n]
    {
      assert NodeShape(t, n);
    }
  }

  // ---------------------------------------------------------------- leaf split and insert

  /** A change that touches no leaf except for parent links and adds only internal nodes keeps the contents. */
  lemma EntriesFramed<V>(t: Tree<V>, x: nat, r: Tree<V>)
    requires WellFormedExcept(t, x) && FramedAbove(t, r, 0)
    ensures Entries(r.nodes) == Entries(t.nodes)
  {
    forall n | 0 <= n < |t.nodes|
      ensures LeafEntries(r.nodes[n]) == LeafEntries(t.nodes[n])
    {
      assert NodeShape(t, n);
      if t.nodes[n].level == 0 {
        assert SameButParent(t, r, n);
      }
    }
    EntriesSame(t.nodes, r.nodes);
  }

  /**
    `split_leaf_node` (lines 121-142): split the full leaf at `order / 2` and
    promote the new leaf's first key. The cascade starts below level
    `level(root) + 1`, which bounds it.
  */
  function SplitLeafNode<V>(t: Tree<V>, leaf: nat, rev: Revision): (r: Tree<V>)
    requires WellFormed(t) && leaf < |t.nodes|
    requires t.nodes[leaf].isLeaf && |t.nodes[leaf].keys| == t.order - 1
    ensures var nd, nl, mid := t.nodes[leaf], |t.nodes|, t.order / 2;
      && WellFormed(r) && r.order == t.order && nl < |r.nodes|
      && r.nodes[leaf].isLeaf && r.nodes[nl].isLeaf
      && |r.nodes[leaf].keys| == mid && 0 < |r.nodes[nl].keys| < t.order - 1
      && r.nodes[leaf].keys + r.nodes[nl].keys == nd.keys
      && r.nodes[leaf].values + r.nodes[nl].values == nd.values
      && r.nodes[leaf].next == Some(nl) && r.nodes[nl].next == nd.next
      && KeyBeside(r, leaf, nd.keys[mid], nl)
      && (forall n :: 0 <= n < nl && n != leaf && t.nodes[n].isLeaf ==> SameButParent(t, r, n))
      && Entries(r.nodes) == Entries(t.nodes)
      && (rev == Corrected ==> r.nodes[nl].parent == r.nodes[leaf].parent)
      && (rev == Corrected && BackLinks(t) ==> BackLinks(r))
  {
    var nl := |t.nodes|;
    var t1 := SplitLeafHalves(t, leaf);
    SplitLeafPromoting(t, leaf);
    var r := InsertIntoParent(t1, leaf, nl, t1.nodes[nl].keys[0], Ceiling(t), rev);
    SplitLeafFrame(t, leaf, t1, r);
    r
  }

  /** After the halving, the two leaves are ready for the promotion at line 141, which can reach at most one level above the root. */
  lemma SplitLeafPromoting<V>(t: Tree<V>, leaf: nat)
    requires WellFormed(t) && leaf < |t.nodes|
    requires t.nodes[leaf].isLeaf && |t.nodes[leaf].keys| == t.order - 1
    ensures var t1 := SplitLeafHalves(t, leaf);
      Promoting(t1, leaf, |t.nodes|, Ceiling(t)) && |t1.nodes[|t.nodes|].keys| > 0
  {
    assert NodeShape(t, leaf);
  }

  /** What the promotion above a leaf split leaves of the two halves and of the other leaves. */
  lemma SplitLeafFrame<V>(t: Tree<V>, leaf: nat, t1: Tree<V>, r: Tree<V>)
    requires WellFormed(t) && leaf < |t.nodes|
    requires t.nodes[leaf].isLeaf && |t.nodes[leaf].keys| == t.order - 1
    requires t1 == SplitLeafHalves(t, leaf) && FramedAbove(t1, r, 0)
    ensures var nd, nl, mid := t.nodes[leaf], |t.nodes|, t.order / 2;
      && r.order == t.order && nl < |r.nodes|
      && r.nodes[leaf].isLeaf && r.nodes[nl].isLeaf
      && |r.nodes[leaf].keys| == mid && 0 < |r.nodes[nl].keys| < t.order - 1
      && r.nodes[leaf].keys + r.nodes[nl].keys == nd.keys
      && r.nodes[leaf].values + r.nodes[nl].values == nd.values
      && r.nodes[leaf].next == Some(nl) && r.nodes[nl].next == nd.next
      && (forall n :: 0 <= n < nl && n != leaf && t.nodes[n].isLeaf ==> SameButParent(t, r, n))
      && Entries(r.nodes) == Entries(t.nodes)
  {
    var nl := |t.nodes|;
    assert NodeShape(t, leaf);
    assert SameButParent(t1, r, leaf) && SameButParent(t1, r, nl);
    forall n | 0 <= n < nl && n != leaf && t.nodes[n].isLeaf
      ensures SameButParent(t, r, n)
    {
      assert NodeShape(t, n);
      assert SameButParent(t1, r, n);
    }
    assert WellFormedExcept(t1, nl);
    EntriesFramed(t1, nl, r);
  }

  /** Lines 183-185 for a leaf with room: the leaf case of `insert_into_node_no_split`. */
  function InsertIntoLeaf<V>(t: Tree<V>, leaf: nat, key: Key, v: V): (r: Tree<V>)
    requires WellFormed(t) && leaf < |t.nodes| && t.nodes[leaf].isLeaf && |t.nodes[leaf].keys| < t.order - 1
    ensures WellFormed(r) && r.order == t.order && |r.nodes| == |t.nodes|
    ensures key in r.nodes[leaf].keys
    ensures forall n :: 0 <= n < |t.nodes| && n != leaf ==> r.nodes[n] == t.nodes[n]
    ensures Entries(r.nodes) == Entries(t.nodes) + multiset{(key, v)}
    ensures BackLinks(t) ==> BackLinks(r)
  {
    assert NodeShape(t, leaf);
    var nd := InsertIntoNodeNoSplit(t.nodes[leaf], key, Value(v));
    var r := t.(nodes := t.nodes[leaf := nd]);
    assert key in nd.keys by {
      assert nd.keys[InsertPos(t.nodes[leaf].keys, key)] == key;
    }
    InsertIntoLeafShape(t, leaf, r);
    EntriesUpdate(t.nodes, leaf, nd);
    assert Entries(r.nodes) == Entries(t.nodes) + multiset{(key, v)} by {
      var a, b, x := Entries(r.nodes), Entries(t.nodes), LeafEntries(t.nodes[leaf]);
      assert LeafEntries(nd) == x + multiset{(key, v)};
      assert a + x == b + LeafEntries(nd);
      CancelRight(a, b, x, multiset{(key, v)});
    }
    r
  }

  lemma InsertIntoLeafShape<V>(t: Tree<V>, leaf: nat, r: Tree<V>)
    requires WellFormed(t) && leaf < |t.nodes| && t.nodes[leaf].isLeaf && |t.nodes[leaf].keys| < t.order - 1
    requires |r.nodes| == |t.nodes| && r.root == t.root && r.order == t.order
    requires forall n :: 0 <= n < |t.nodes| && n != leaf ==> r.nodes[n] == t.nodes[n]
    requires var nd, x := t.nodes[leaf], r.nodes[leaf];
      && x.isLeaf && x.level == 0 && x.children == [] && x.parent == nd.parent && x.next == nd.next
      && |x.values| == |x.keys| == |nd.keys| + 1 && Sorted(x.keys)
    ensures WellFormed(r) && (BackLinks(t) ==> BackLinks(r))
  {
    assert NodeShape(t, leaf);
    assert Extends(t, r);
    forall n | 0 <= n < |r.nodes|
      ensures NodeShape(r, n)
    {
      assert NodeShape(t, n);
      if n != leaf {
        ContentStable(t, r, n);
      }
    }
  }

  /**
    `insert` (lines 170-186): find the leaf; if it is full, split it first
    and move to the new leaf when `key` is not below that leaf's first key;
    then insert into the leaf, which now has room.
  */
  function Insert<V>(t: Tree<V>, key: Key, v: V, rev: Revision): (r: Tree<V>)
    requires WellFormed(t)
    ensures WellFormed(r) && r.order == t.order
    ensures Entries(r.nodes) == Entries(t.nodes) + multiset{(key, v)}
    ensures rev == Corrected && BackLinks(t) ==> BackLinks(r)
  {
    var leaf := FindLeaf(t, key);
    assert NodeShape(t, leaf);
    if |t.nodes[leaf].keys| == t.order - 1 then
      var t1 := SplitLeafNode(t, leaf, rev);
      var next := t1.nodes[leaf].next.value;
      var target := if !Less(key, t1.nodes[next].keys[0]) then next else leaf;
      InsertIntoLeaf(t1, target, key, v)
    else
      InsertIntoLeaf(t, leaf, key, v)
  }
}

/**
  The data model of `arvore_b_mais.h`: a node record and a tree record.

  The C tree is a graph of heap nodes linked by `Node*` pointers. Here the
  nodes live in an arena, a sequence indexed by `nat`, and every pointer
  (`pointers[i]` of an internal node, `parent`, `next_leaf`, `root`) is an
  index into it. The single `void** pointers` array is split in two: an
  internal node uses `children`, a leaf uses `values`; the other stays empty.
*/
module BPlusNode {
  import opened Options
  import opened Keys

  /**
    One node. `keys` holds the `num_keys` valid entries of the key array.
    `level` is the distance to the leaf level; the C node does not store it,
    the model keeps it so that descent and the split cascade provably end.
  */
  datatype Node<V> = Node(
    isLeaf: bool,
    keys: seq<Key>,
    children: seq<nat>,
    values: seq<V>,
    parent: Option<nat>,
    next: Option<nat>,
    level: nat)

  /** The tree: the arena, the root's index and the fixed order. */
  datatype Tree<V> = Tree(nodes: seq<Node<V>>, root: nat, order: int)

  /** What `insert_into_node_no_split` stores next to its key: a child or a value. */
  datatype Pointer<V> = Child(index: nat) | Value(value: V)

  /** A node as `create_node` returns it: no keys, no parent, no next leaf. */
  function EmptyNode<V>(isLeaf: bool, level: nat): (nd: Node<V>)
    ensures nd.keys == [] && nd.children == [] && nd.values == []
    ensures nd.parent == None && nd.next == None && nd.isLeaf == isLeaf
  {
    Node(isLeaf, [], [], [], None, None, level)
  }

  /**
    The contents of node `n`: at most `order - 1` sorted keys; a leaf has
    one value per key and its next leaf (if any) is a leaf; an internal node
    has one child more than keys, each one level lower.
  */
  ghost predicate ContentShape<V>(t: Tree<V>, n: nat)
    requires n < |t.nodes|
  {
    var nd := t.nodes[n];
    && |nd.keys| <= t.order - 1
    && Sorted(nd.keys)
    && (nd.isLeaf ==>
          && nd.level == 0
          && nd.children == []
          && |nd.values| == |nd.keys|
          && (nd.next.Some? ==> nd.next.value < |t.nodes| && t.nodes[nd.next.value].isLeaf))
    && (!nd.isLeaf ==>
          && nd.level > 0
          && nd.values == []
          && nd.next == None
          && |nd.children| == |nd.keys| + 1
          && forall i :: 0 <= i < |nd.children| ==>
               nd.children[i] < |t.nodes| && t.nodes[nd.children[i]].level + 1 == nd.level)
  }

  /** A parent link of node `n` points to an internal node one level higher. */
  ghost predicate ParentShape<V>(t: Tree<V>, n: nat)
    requires n < |t.nodes|
  {
    var nd := t.nodes[n];
    nd.parent.Some? ==>
      && nd.parent.value < |t.nodes|
      && !t.nodes[nd.parent.value].isLeaf
      && t.nodes[nd.parent.value].level == nd.level + 1
  }

  /** The local shape of node `n`. */
  ghost predicate NodeShape<V>(t: Tree<V>, n: nat)
    requires n < |t.nodes|
  {
    ContentShape(t, n) && ParentShape(t, n)
  }

  /**
    Every node has its local shape, the root has no parent, every node except
    `x` has one, and no node sits above the root. `x` is a node just created
    by a split that is not yet linked into its parent.
  */
  ghost predicate WellFormedExcept<V>(t: Tree<V>, x: nat) {
    && t.order >= 3
    && t.root < |t.nodes|
    && (forall n :: 0 <= n < |t.nodes| ==> NodeShape(t, n))
    && t.nodes[t.root].parent == None
    && (forall n :: 0 <= n < |t.nodes| && n != t.root && n != x ==> t.nodes[n].parent.Some?)
    && (forall n :: 0 <= n < |t.nodes| ==> t.nodes[n].level <= t.nodes[t.root].level)
  }

  /** The invariant of a tree between operations, with parent links only required to go one level up. */
  ghost predicate WellFormed<V>(t: Tree<V>) {
    && WellFormedExcept(t, t.root)
  }

  /** Every child's `parent` link names the internal node that holds it, and no node lists a child twice. */
  ghost predicate BackLinks<V>(t: Tree<V>) {
    && (forall n, i :: 0 <= n < |t.nodes| && 0 <= i < |t.nodes[n].children| && t.nodes[n].children[i] < |t.nodes| ==>
          t.nodes[t.nodes[n].children[i]].parent == Some(n))
    && (forall n, i, j :: 0 <= n < |t.nodes| && 0 <= i < j < |t.nodes[n].children| ==>
          t.nodes[n].children[i] != t.nodes[n].children[j])
  }

  /** The full invariant: well formed, with exact parent links. */
  ghost predicate Valid<V>(t: Tree<V>) {
    WellFormed(t) && BackLinks(t)
  }

  /** `t2` keeps `t`'s order and the kind and level of each of `t`'s nodes, and may add nodes. */
  ghost predicate Extends<V>(t: Tree<V>, t2: Tree<V>) {
    && t2.order == t.order
    && |t.nodes| <= |t2.nodes|
    && (forall n :: 0 <= n < |t.nodes| ==>
          t2.nodes[n].isLeaf == t.nodes[n].isLeaf && t2.nodes[n].level == t.nodes[n].level)
  }

  /** No node lists `x` among its children. */
  ghost predicate Unlinked<V>(t: Tree<V>, x: nat) {
    forall n, i :: 0 <= n < |t.nodes| && 0 <= i < |t.nodes[n].children| ==> t.nodes[n].children[i] != x
  }

  /** `n` is the same node in `t` and `t2` except, perhaps, for its parent link. */
  ghost predicate SameButParent<V>(t: Tree<V>, t2: Tree<V>, n: nat)
    requires n < |t.nodes| && n < |t2.nodes|
  {
    t2.nodes[n].(parent := t.nodes[n].parent) == t.nodes[n]
  }

  /**
    Going from `t` to `t2` touches nothing below level `l` and only parent
    links on level `l`; every node added is internal and above level `l`.
  */
  ghost predicate FramedAbove<V>(t: Tree<V>, t2: Tree<V>, l: nat) {
    && Extends(t, t2)
    && (forall n :: 0 <= n < |t.nodes| && t.nodes[n].level < l ==> t2.nodes[n] == t.nodes[n])
    && (forall n :: 0 <= n < |t.nodes| && t.nodes[n].level == l ==> SameButParent(t, t2, n))
    && (forall n :: |t.nodes| <= n < |t2.nodes| ==> !t2.nodes[n].isLeaf && t2.nodes[n].level > l)
  }

  lemma FramedAboveTrans<V>(t: Tree<V>, t2: Tree<V>, t3: Tree<V>, l: nat, l2: nat)
    requires FramedAbove(t, t2, l) && FramedAbove(t2, t3, l2) && l <= l2
    ensures FramedAbove(t, t3, l)
  {
    forall n | 0 <= n < |t.nodes| && t.nodes[n].level == l
      ensures SameButParent(t, t3, n)
    {
      assert SameButParent(t, t2, n);
      if l == l2 {
        assert SameButParent(t2, t3, n);
      }
    }
  }

  /** A node whose fields other than `parent` are untouched keeps its content shape in a tree that extends the old one. */
  lemma ContentStable<V>(t: Tree<V>, t2: Tree<V>, n: nat)
    requires Extends(t, t2) && n < |t.nodes| && ContentShape(t, n)
    requires t2.nodes[n].(parent := t.nodes[n].parent) == t.nodes[n]
    ensures ContentShape(t2, n)
  {
    var nd := t.nodes[n];
    if !nd.isLeaf {
      forall i | 0 <= i < |nd.children|
        ensures t2.nodes[nd.children[i]].level + 1 == nd.level
      {
        assert nd.children[i] < |t.nodes|;
      }
    }
  }

  /** A node whose parent link and level are unchanged keeps its parent shape in a tree that extends the old one. */
  lemma ParentStable<V>(t: Tree<V>, t2: Tree<V>, n: nat)
    requires Extends(t, t2) && n < |t.nodes| && ParentShape(t, n)
    requires t2.nodes[n].parent == t.nodes[n].parent
    ensures ParentShape(t2, n)
  {
  }

  /** The (key, value) pairs a leaf stores, in order. */
  function Pairs<V>(nd: Node<V>): (ps: seq<(Key, V)>)
    requires |nd.values| == |nd.keys|
    ensures |ps| == |nd.keys|
    ensures forall i :: 0 <= i < |ps| ==> ps[i] == (nd.keys[i], nd.values[i])
  {
    seq(|nd.keys|, i requires 0 <= i < |nd.keys| => (nd.keys[i], nd.values[i]))
  }

  /** The entries a node contributes to the tree's contents: a leaf's pairs, nothing for an internal node. */
  ghost function LeafEntries<V>(nd: Node<V>): multiset<(Key, V)> {
    if nd.isLeaf && |nd.values| == |nd.keys| then multiset(Pairs(nd)) else multiset{}
  }

  /** The sum of `f` over the first `k` nodes of an arena. */
  ghost function SumUpTo<V, T>(nodes: seq<Node<V>>, k: nat, f: Node<V> -> multiset<T>): multiset<T>
    requires k <= |nodes|
  {
    if k == 0 then multiset{} else SumUpTo(nodes, k - 1, f) + f(nodes[k - 1])
  }

  /** Everything stored in the leaves of an arena. */
  ghost function Entries<V>(nodes: seq<Node<V>>): multiset<(Key, V)> {
    SumUpTo(nodes, |nodes|, LeafEntries)
  }

  lemma AddBoth<T>(a: multiset<T>, b: multiset<T>, c: multiset<T>, d: multiset<T>, e: multiset<T>)
    requires a + c == b + d
    ensures (a + e) + c == (b + e) + d
  {
    forall z
      ensures ((a + e) + c)[z] == ((b + e) + d)[z]
    {
      assert (a + c)[z] == (b + d)[z];
    }
  }

  lemma Cancel<T>(a: multiset<T>, b: multiset<T>, x: multiset<T>, y: multiset<T>, m: multiset<T>)
    requires a + m == b + x && m == x + y
    ensures a + y == b
  {
    forall z
      ensures (a + y)[z] == b[z]
    {
      assert (a + m)[z] == (b + x)[z];
    }
  }

  lemma CancelRight<T>(a: multiset<T>, b: multiset<T>, x: multiset<T>, k: multiset<T>)
    requires a + x == b + (x + k)
    ensures a == b + k
  {
    forall z
      ensures a[z] == (b + k)[z]
    {
      assert (a + x)[z] == (b + (x + k))[z];
    }
  }

  lemma {:induction false} SumUpToUpdate<V, T>(nodes: seq<Node<V>>, k: nat, n: nat, x: Node<V>, f: Node<V> -> multiset<T>)
    requires n < |nodes| && k <= |nodes|
    ensures n < k ==> SumUpTo(nodes[n := x], k, f) + f(nodes[n]) == SumUpTo(nodes, k, f) + f(x)
    ensures k <= n ==> SumUpTo(nodes[n := x], k, f) == SumUpTo(nodes, k, f)
  {
    if k > 0 {
      SumUpToUpdate(nodes, k - 1, n, x, f);
      var u := nodes[n := x];
      if n < k - 1 {
        assert u[k - 1] == nodes[k - 1];
        AddBoth(SumUpTo(u, k - 1, f), SumUpTo(nodes, k - 1, f), f(nodes[n]), f(x), f(nodes[k - 1]));
      } else if k - 1 < n {
        assert u[k - 1] == nodes[k - 1];
      }
    }
  }

  /** Replacing one node changes the contents by that node's entries only. */
  lemma EntriesUpdate<V>(nodes: seq<Node<V>>, n: nat, x: Node<V>)
    requires n < |nodes|
    ensures Entries(nodes[n := x]) + LeafEntries(nodes[n]) == Entries(nodes) + LeafEntries(x)
  {
    SumUpToUpdate(nodes, |nodes|, n, x, LeafEntries);
  }

  lemma {:induction false} SumUpToPrefix<V, T>(a: seq<Node<V>>, b: seq<Node<V>>, k: nat, f: Node<V> -> multiset<T>)
    requires k <= |a| && k <= |b|
    requires forall i :: 0 <= i < k ==> f(b[i]) == f(a[i])
    ensures SumUpTo(b, k, f) == SumUpTo(a, k, f)
  {
    if k > 0 {
      SumUpToPrefix(a, b, k - 1, f);
    }
  }

  lemma {:induction false} SumUpToTail<V, T>(b: seq<Node<V>>, k: nat, m: nat, f: Node<V> -> multiset<T>)
    requires k <= m <= |b|
    requires forall i :: k <= i < m ==> f(b[i]) == multiset{}
    ensures SumUpTo(b, m, f) == SumUpTo(b, k, f)
  {
    if m > k {
      SumUpToTail(b, k, m - 1, f);
    }
  }

  /** Appending a node adds its entries. */
  lemma EntriesAppend<V>(nodes: seq<Node<V>>, x: Node<V>)
    ensures Entries(nodes + [x]) == Entries(nodes) + LeafEntries(x)
  {
    SumUpToPrefix(nodes, nodes + [x], |nodes|, LeafEntries);
  }

  /**
    Two arenas with the same entries node by node on the shorter one's
    indices, and no entries in the longer one's extra nodes, hold the same
    contents.
  */
  lemma EntriesSame<V>(a: seq<Node<V>>, b: seq<Node<V>>)
    requires |a| <= |b|
    requires forall i :: 0 <= i < |a| ==> LeafEntries(b[i]) == LeafEntries(a[i])
    requires forall i :: |a| <= i < |b| ==> LeafEntries(b[i]) == multiset{}
    ensures Entries(b) == Entries(a)
  {
    SumUpToTail(b, |a|, |b|, LeafEntries);
    SumUpToPrefix(a, b, |a|, LeafEntries);
  }

  /** Splitting node `n` into itself and an appended node keeps the sum when the two parts add up to the old node. */
  lemma SumUpToSplit<V, T>(nodes: seq<Node<V>>, n: nat, x: Node<V>, y: Node<V>, f: Node<V> -> multiset<T>)
    requires n < |nodes|
    requires f(x) + f(y) == f(nodes[n])
    ensures SumUpTo(nodes[n := x] + [y], |nodes| + 1, f) == SumUpTo(nodes, |nodes|, f)
  {
    var u := nodes[n := x];
    SumUpToUpdate(nodes, |nodes|, n, x, f);
    SumUpToPrefix(u, u + [y], |nodes|, f);
    assert (u + [y])[|nodes|] == y;
    Cancel(SumUpTo(u, |nodes|, f), SumUpTo(nodes, |nodes|, f), f(x), f(y), f(nodes[n]));
  }

  /** Splitting a leaf into two whose entries add up to the old ones keeps the contents. */
  lemma EntriesSplit<V>(nodes: seq<Node<V>>, n: nat, x: Node<V>, y: Node<V>)
    requires n < |nodes|
    requires LeafEntries(x) + LeafEntries(y) == LeafEntries(nodes[n])
    ensures Entries(nodes[n := x] + [y]) == Entries(nodes)
  {
    SumUpToSplit(nodes, n, x, y, LeafEntries);
  }
}

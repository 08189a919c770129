/**
  The search-tree property of the arena, which `find_leaf` and `search`
  rely on without checking it.

  Every node is given a half-open key interval `[lo, hi)`. The root's
  interval is unbounded; the children of an internal node split its
  interval at its keys; every key of a node lies in the node's interval
  and the keys of a node strictly increase. Together with "every node
  but the root is listed by the node its `parent` link names", this makes
  the descent of `find_leaf` reach the one leaf that can hold a key, so
  `search` finds exactly what the leaves store.

  `insert` of a key not yet stored keeps the property in the corrected
  revision. The proof follows the promotion cascade of `insert_into_parent`
  level by level: while a split waits for its key to reach the parent, the
  slot of the split node in its parent covers both halves.
*/
module BPlusOrder {
  import opened Options
  import opened Keys
  import opened BPlusNode
  import opened BPlusSpec

  /** A half-open interval of keys `[lo, hi)`; `None` leaves that side unbounded. */
  datatype Range = Range(lo: Option<Key>, hi: Option<Key>)

  const Full: Range := Range(None, None)

  predicate InRange(k: Key, r: Range) {
    && (r.lo.Some? ==> LessEq(r.lo.value, k))
    && (r.hi.Some? ==> Less(k, r.hi.value))
  }

  /** The interval of child `i` of a node with interval `r`: between the separators on either side of it. */
  function ChildRange(r: Range, keys: seq<Key>, i: nat): Range
    requires i <= |keys|
  {
    Range(if i == 0 then r.lo else Some(keys[i - 1]), if i == |keys| then r.hi else Some(keys[i]))
  }

  /** The keys of node `n` strictly increase and lie in its interval. */
  ghost predicate KeysIn<V>(t: Tree<V>, B: seq<Range>, n: nat)
    requires n < |t.nodes| == |B|
  {
    var ks := t.nodes[n].keys;
    StrictlySorted(ks) && forall j :: 0 <= j < |ks| ==> InRange(ks[j], B[n])
  }

  /** Every child in `children` has the interval its position gives it within `r`, split at `keys`. */
  ghost predicate SlotsExact(B: seq<Range>, r: Range, keys: seq<Key>, children: seq<nat>) {
    forall i :: 0 <= i < |children| && i <= |keys| && children[i] < |B| ==>
      B[children[i]] == ChildRange(r, keys, i)
  }

  /** As `SlotsExact`, except that the slot of `left` spans the intervals of `left` and `right`. */
  ghost predicate SlotsFit(B: seq<Range>, r: Range, keys: seq<Key>, children: seq<nat>, left: nat, right: nat)
    requires left < |B| && right < |B|
  {
    forall i :: 0 <= i < |children| && i <= |keys| && children[i] < |B| ==>
      ChildRange(r, keys, i) == if children[i] == left then Range(B[left].lo, B[right].hi) else B[children[i]]
  }

  /** Every child of node `n` has the interval its position in `n` gives it. */
  ghost predicate LinksFit<V>(t: Tree<V>, B: seq<Range>, n: nat)
    requires n < |t.nodes| == |B|
  {
    SlotsExact(B, B[n], t.nodes[n].keys, t.nodes[n].children)
  }

  /**
    As `LinksFit`, while `left` has been split and `right` waits to be
    listed: the slot of `left` spans the intervals of both halves.
  */
  ghost predicate LinksFitBut<V>(t: Tree<V>, B: seq<Range>, n: nat, left: nat, right: nat)
    requires n < |t.nodes| == |B| && left < |B| && right < |B|
  {
    SlotsFit(B, B[n], t.nodes[n].keys, t.nodes[n].children, left, right)
  }

  /** The intervals fit on every node above level `l`. */
  ghost predicate OrderedFrom<V>(t: Tree<V>, B: seq<Range>, l: int) {
    && |B| == |t.nodes|
    && forall n :: 0 <= n < |t.nodes| && t.nodes[n].level > l ==> LinksFit(t, B, n) && KeysIn(t, B, n)
  }

  /** The intervals fit on every node above the level of `left`, whose split waits for its promotion. */
  ghost predicate PendingFrom<V>(t: Tree<V>, B: seq<Range>, left: nat, right: nat)
    requires left < |t.nodes| == |B| && right < |B|
  {
    forall n :: 0 <= n < |t.nodes| && t.nodes[n].level > t.nodes[left].level ==>
      LinksFitBut(t, B, n, left, right) && KeysIn(t, B, n)
  }

  /** `key` is the bound between the intervals of `left` and `right`, and neither interval is empty. */
  ghost predicate SplitAt(B: seq<Range>, left: nat, right: nat, key: Key)
    requires left < |B| && right < |B|
  {
    && B[left].hi == Some(key) && B[right].lo == Some(key)
    && (B[left].lo.Some? ==> Less(B[left].lo.value, key))
    && (B[right].hi.Some? ==> Less(key, B[right].hi.value))
  }

  /**
    The state in which `insert_into_parent(left, key, right)` is called:
    `key` splits the slot of `left` into the intervals of the two halves,
    each of them non-empty, and the root's interval is unbounded.
  */
  ghost predicate Pending<V>(t: Tree<V>, B: seq<Range>, left: nat, right: nat, key: Key) {
    && |B| == |t.nodes| && left < |B| && right < |B| && t.root < |B|
    && SplitAt(B, left, right, key)
    && PendingFrom(t, B, left, right)
    && (if left == t.root then Range(B[left].lo, B[right].hi) == Full else B[t.root] == Full)
  }

  /** The whole arena has fitting intervals and the root's interval is unbounded. */
  ghost predicate Ordered<V>(t: Tree<V>, B: seq<Range>) {
    OrderedFrom(t, B, -1) && t.root < |B| && B[t.root] == Full
  }

  /** Node `c` is the root or is listed by the node its `parent` link names. */
  ghost predicate ListedNode<V>(t: Tree<V>, c: nat)
    requires c < |t.nodes|
  {
    || c == t.root
    || (t.nodes[c].parent.Some? && t.nodes[c].parent.value < |t.nodes| && c in t.nodes[t.nodes[c].parent.value].children)
  }

  /** Every node on level `l` or above, except `x`, is listed by its parent. */
  ghost predicate ListedFrom<V>(t: Tree<V>, l: int, x: nat) {
    forall c :: 0 <= c < |t.nodes| && t.nodes[c].level >= l && c != x ==> ListedNode(t, c)
  }

  /** The parent links and the `pointers` arrays describe the same tree. */
  ghost predicate Listed<V>(t: Tree<V>) {
    ListedFrom(t, 0, t.root)
  }

  /** The intervals fit on level `l`, with the split of `left` pending. */
  ghost predicate LevelFitsBut<V>(t: Tree<V>, B: seq<Range>, l: int, left: nat, right: nat)
    requires |t.nodes| == |B| && left < |B| && right < |B|
  {
    forall n :: 0 <= n < |t.nodes| && t.nodes[n].level == l ==> LinksFitBut(t, B, n, left, right) && KeysIn(t, B, n)
  }

  /** Every node on level `l`, except `x`, is listed by its parent. */
  ghost predicate ListedOn<V>(t: Tree<V>, l: int, x: nat) {
    forall c :: 0 <= c < |t.nodes| && t.nodes[c].level == l && c != x ==> ListedNode(t, c)
  }

  /** A B+ tree as `find_leaf` and `search` expect it. */
  ghost predicate SearchTree<V>(t: Tree<V>) {
    && Valid(t)
    && Listed(t)
    && exists B :: Ordered(t, B)
  }

  // ---------------------------------------------------------------- intervals

  /** A key in the interval of child `i` lies in the node's interval. */
  lemma RangeNest(r: Range, keys: seq<Key>, i: nat, k: Key)
    requires i <= |keys| && forall j :: 0 <= j < |keys| ==> InRange(keys[j], r)
    requires InRange(k, ChildRange(r, keys, i))
    ensures InRange(k, r)
  {
    if i > 0 && r.lo.Some? {
      LessEqTransitive(r.lo.value, keys[i - 1], k);
    }
    if i < |keys| && r.hi.Some? {
      LessTransitive(k, keys[i], r.hi.value);
    }
  }

  /** The scan of `find_leaf` stops at `i` when every key before `i` is `<= k` and the key at `i` is not. */
  lemma {:induction false} ChildIndexAt(keys: seq<Key>, k: Key, i: nat)
    requires i <= |keys| && forall j :: 0 <= j < i ==> LessEq(keys[j], k)
    requires i < |keys| ==> Less(k, keys[i])
    ensures ChildIndex(keys, k) == i
  {
    if i > 0 {
      ChildIndexAt(keys[1..], k, i - 1);
    }
  }

  /** The scan of `find_leaf` picks child `i` for any key in child `i`'s interval. */
  lemma ChildIndexIn(r: Range, keys: seq<Key>, i: nat, k: Key)
    requires i <= |keys| && StrictlySorted(keys)
    requires InRange(k, ChildRange(r, keys, i))
    ensures ChildIndex(keys, k) == i
  {
    forall j | 0 <= j < i
      ensures LessEq(keys[j], k)
    {
      if j < i - 1 {
        LessLessEqTransitive(keys[j], keys[i - 1], k);
        LessTrichotomy(keys[j], k);
      }
    }
    ChildIndexAt(keys, k, i);
  }

  /** The intervals of the children of the two halves of a split node are those they had before. */
  lemma ChildRangeHalves(r: Range, keys: seq<Key>, mid: nat, i: nat)
    requires mid < |keys| && i <= |keys|
    ensures i <= mid ==> ChildRange(Range(r.lo, Some(keys[mid])), keys[..mid], i) == ChildRange(r, keys, i)
    ensures mid < i ==> ChildRange(Range(Some(keys[mid]), r.hi), keys[mid + 1..], i - mid - 1) == ChildRange(r, keys, i)
  {
  }

  /**
    A key that splits the slot of child `j` into two non-empty intervals
    goes in at position `j` and keeps the keys strictly increasing and in
    the node's interval.
  */
  lemma RoomRanges(r: Range, keys: seq<Key>, j: nat, key: Key, lr: Range, rr: Range)
    requires j <= |keys| && StrictlySorted(keys) && forall i :: 0 <= i < |keys| ==> InRange(keys[i], r)
    requires ChildRange(r, keys, j) == Range(lr.lo, rr.hi)
    requires lr.hi == Some(key) && rr.lo == Some(key)
    requires lr.lo.Some? ==> Less(lr.lo.value, key)
    requires rr.hi.Some? ==> Less(key, rr.hi.value)
    ensures InsertPos(keys, key) == j
    ensures var ks := keys[..j] + [key] + keys[j..];
      StrictlySorted(ks) && forall i :: 0 <= i < |ks| ==> InRange(ks[i], r)
  {
    forall i | j <= i < |keys|
      ensures Less(key, keys[i]) && keys[i] != key
    {
      if i > j {
        LessTransitive(key, keys[j], keys[i]);
      }
      LessTrichotomy(key, keys[i]);
    }
    if j > 0 {
      LessTrichotomy(keys[j - 1], key);
    }
    InsertPosAt(keys, key, j);
    assert InRange(key, r) by {
      if lr.lo.Some? {
        LessTrichotomy(lr.lo.value, key);
      }
      RangeNest(r, keys, j, key);
    }
    forall i | 0 <= i < j
      ensures keys[i] != key
    {
      if i < j - 1 {
        LessTransitive(keys[i], keys[j - 1], key);
      }
      LessTrichotomy(keys[i], key);
    }
    InsertedStrict(r, keys, key);
  }

  /** The interval of child `i` once `key` is in at position `j`: the slot of child `j` is split at `key`, the others shift. */
  lemma ChildRangeInserted(r: Range, keys: seq<Key>, j: nat, key: Key, i: nat)
    requires j <= |keys| && i <= |keys| + 1
    ensures var ks, old_ := keys[..j] + [key] + keys[j..], ChildRange(r, keys, j);
      ChildRange(r, ks, i) ==
        if i < j then ChildRange(r, keys, i)
        else if i == j then Range(old_.lo, Some(key))
        else if i == j + 1 then Range(Some(key), old_.hi)
        else ChildRange(r, keys, i - 1)
  {
    var ks := keys[..j] + [key] + keys[j..];
    if i > 0 {
      assert ks[i - 1] == if i - 1 < j then keys[i - 1] else if i - 1 == j then key else keys[i - 2];
    }
    if i < |ks| {
      assert ks[i] == if i < j then keys[i] else if i == j then key else keys[i - 1];
    }
  }

  // ---------------------------------------------------------------- the promotion cascade

  /** The parent `nd` with interval `r` that receives `key` and `right` at the slot `j` of `left` gets fitting intervals. */
  lemma RoomParentFits<V>(B: seq<Range>, left: nat, right: nat, key: Key, r: Range, nd: Node<V>, j: nat, q: Node<V>)
    requires left < |B| && right < |B| && right != left
    requires B[left].hi == Some(key) && B[right].lo == Some(key)
    requires B[left].lo.Some? ==> Less(B[left].lo.value, key)
    requires B[right].hi.Some? ==> Less(key, B[right].hi.value)
    requires !nd.isLeaf && Filled(nd) && StrictlySorted(nd.keys) && forall i :: 0 <= i < |nd.keys| ==> InRange(nd.keys[i], r)
    requires SlotsFit(B, r, nd.keys, nd.children, left, right)
    requires j < |nd.children| && nd.children[j] == left
    requires forall i :: 0 <= i < |nd.children| && i != j ==> nd.children[i] != left
    requires q == InsertIntoNodeNoSplit(nd, key, Child(right))
    ensures SlotsExact(B, r, q.keys, q.children)
    ensures StrictlySorted(q.keys) && forall i :: 0 <= i < |q.keys| ==> InRange(q.keys[i], r)
  {
    RoomSlots(B, r, nd.keys, nd.children, j, key, left, right);
    assert q.keys == nd.keys[..j] + [key] + nd.keys[j..];
  }

  /**
    The slots after `key` and `right` go in beside `left` at slot `j`: `left`
    and `right` get exactly their own intervals, the others keep theirs.
  */
  lemma RoomSlots(B: seq<Range>, r: Range, keys: seq<Key>, cs: seq<nat>, j: nat, key: Key, left: nat, right: nat)
    requires j < |cs| == |keys| + 1 && left < |B| && right < |B| && right != left
    requires cs[j] == left && forall i :: 0 <= i < |cs| && i != j ==> cs[i] != left
    requires StrictlySorted(keys) && forall i :: 0 <= i < |keys| ==> InRange(keys[i], r)
    requires B[left].hi == Some(key) && B[right].lo == Some(key)
    requires B[left].lo.Some? ==> Less(B[left].lo.value, key)
    requires B[right].hi.Some? ==> Less(key, B[right].hi.value)
    requires SlotsFit(B, r, keys, cs, left, right)
    ensures InsertPos(keys, key) == j
    ensures var ks := keys[..j] + [key] + keys[j..];
      && StrictlySorted(ks) && (forall i :: 0 <= i < |ks| ==> InRange(ks[i], r))
      && SlotsExact(B, r, ks, cs[..j + 1] + [right] + cs[j + 1..])
  {
    RoomRanges(r, keys, j, key, B[left], B[right]);
    var cs2 := cs[..j + 1] + [right] + cs[j + 1..];
    forall i | 0 <= i < |cs2| && i <= |keys| + 1 && cs2[i] < |B|
      ensures B[cs2[i]] == ChildRange(r, keys[..j] + [key] + keys[j..], i)
    {
      InsertedChildren(cs, cs2, j, right, i);
      ChildRangeInserted(r, keys, j, key, i);
    }
  }

  /** A node other than the receiving parent lists no `left`, so its intervals fit outright. */
  lemma OtherFits<V>(t: Tree<V>, B: seq<Range>, left: nat, right: nat, p: nat, n: nat)
    requires BackLinks(t) && n < |t.nodes| == |B| && left < |B| && right < |B|
    requires t.nodes[left].parent == Some(p) && n != p && LinksFitBut(t, B, n, left, right)
    ensures LinksFit(t, B, n)
  {
  }

  /** A node whose keys and children are unchanged, with unchanged intervals for it and its children, keeps fitting. */
  lemma FitsKept<V>(t: Tree<V>, B: seq<Range>, u: Tree<V>, C: seq<Range>, n: nat, left: nat, right: nat)
    requires n < |t.nodes| == |B| && n < |u.nodes| == |C| && left < |B| && right < |B| && left < |C| && right < |C|
    requires u.nodes[n].keys == t.nodes[n].keys && u.nodes[n].children == t.nodes[n].children
    requires C[n] == B[n] && C[left] == B[left] && C[right] == B[right]
    requires forall i :: 0 <= i < |t.nodes[n].children| ==>
      t.nodes[n].children[i] < |B| && t.nodes[n].children[i] < |C| && C[t.nodes[n].children[i]] == B[t.nodes[n].children[i]]
    requires LinksFitBut(t, B, n, left, right) && KeysIn(t, B, n)
    ensures LinksFitBut(u, C, n, left, right) && KeysIn(u, C, n)
  {
  }

  /** The arena after line 108 corrected: `p` receives `key` and `right`, and `right` links to `p`. */
  ghost predicate RoomResult<V>(t: Tree<V>, p: nat, right: nat, key: Key, r: Tree<V>)
    requires p < |t.nodes| && right < |t.nodes| && Filled(t.nodes[p]) && !t.nodes[p].isLeaf
  {
    && |r.nodes| == |t.nodes| && r.root == t.root
    && r.nodes[p] == InsertIntoNodeNoSplit(t.nodes[p], key, Child(right))
    && r.nodes[right] == t.nodes[right].(parent := Some(p))
    && forall n :: 0 <= n < |t.nodes| && n != p && n != right ==> r.nodes[n] == t.nodes[n]
  }

  lemma RoomFits<V>(t: Tree<V>, left: nat, right: nat, key: Key, p: nat, j: nat, B: seq<Range>, r: Tree<V>)
    requires WellFormedExcept(t, right) && BackLinks(t) && left < |t.nodes| && right < |t.nodes| && right != left
    requires t.nodes[left].parent == Some(p)
    requires p < |t.nodes| && !t.nodes[p].isLeaf && t.nodes[left].level + 1 == t.nodes[p].level
    requires t.nodes[right].level == t.nodes[left].level
    requires j < |t.nodes[p].children| && t.nodes[p].children[j] == left
    requires Pending(t, B, left, right, key)
    requires NodeShape(t, p) && RoomResult(t, p, right, key, r)
    ensures OrderedFrom(r, B, t.nodes[left].level)
  {
    var nd := t.nodes[p];
    var l := t.nodes[left].level;
    var q := r.nodes[p];
    forall i | 0 <= i < |nd.children| && i != j
      ensures nd.children[i] != left
    {
      if i < j {
        assert nd.children[i] != nd.children[j];
      } else {
        assert nd.children[j] != nd.children[i];
      }
    }
    assert KeysIn(t, B, p) && LinksFitBut(t, B, p, left, right);
    RoomParentFits(B, left, right, key, B[p], nd, j, q);
    assert r.nodes == t.nodes[p := q][right := t.nodes[right].(parent := Some(p))];
    forall n | 0 <= n < |r.nodes| && r.nodes[n].level > l
      ensures LinksFit(r, B, n) && KeysIn(r, B, n)
    {
      if n != p {
        assert r.nodes[n] == t.nodes[n];
        OtherFits(t, B, left, right, p, n);
      }
    }
  }

  lemma RoomListed<V>(t: Tree<V>, left: nat, right: nat, key: Key, p: nat, r: Tree<V>)
    requires WellFormedExcept(t, right) && p < |t.nodes| && right < |t.nodes| && !t.nodes[p].isLeaf
    requires NodeShape(t, p) && RoomResult(t, p, right, key, r)
    requires left < |t.nodes| && ListedFrom(t, t.nodes[left].level, right)
    ensures ListedFrom(r, t.nodes[left].level, r.root)
  {
    var nd := t.nodes[p];
    var q := r.nodes[p];
    var i := InsertPos(nd.keys, key);
    assert q.children[i + 1] == right by {
      InsertedChildren(nd.children, q.children, i, right, i + 1);
    }
    forall c | 0 <= c < |r.nodes| && r.nodes[c].level >= t.nodes[left].level && c != r.root
      ensures ListedNode(r, c)
    {
      if c != right {
        assert ListedNode(t, c);
        var pc := t.nodes[c].parent.value;
        var k :| 0 <= k < |t.nodes[pc].children| && t.nodes[pc].children[k] == c;
        if pc == p {
          var k' := if k <= i then k else k + 1;
          InsertedChildren(nd.children, q.children, i, right, k');
        }
      }
    }
  }

  /** `C` gives every node of `t` on level `l` or below the interval `B` gives it. */
  ghost predicate Agree<V>(t: Tree<V>, B: seq<Range>, C: seq<Range>, l: int) {
    forall n :: 0 <= n < |t.nodes| && t.nodes[n].level <= l ==> n < |B| && n < |C| && C[n] == B[n]
  }

  /**
    What a corrected promotion next to `left` leaves, with intervals `B2` for
    the resulting arena `r`: the intervals fit above `left`'s level, the
    root's is unbounded, every node there is listed and `left`'s level and
    below keep their intervals.
  */
  ghost predicate PromoteFits<V>(t: Tree<V>, left: nat, B: seq<Range>, r: Tree<V>, B2: seq<Range>)
    requires left < |t.nodes|
  {
    && |B2| == |r.nodes| && r.root < |B2| && B2[r.root] == Full
    && OrderedFrom(r, B2, t.nodes[left].level)
    && Agree(t, B, B2, t.nodes[left].level)
    && ListedFrom(r, t.nodes[left].level, r.root)
  }

  /** Line 108 corrected, on a search tree with the split of `left` pending: all intervals fit again and every node is listed. */
  lemma RoomOrdered<V>(t: Tree<V>, left: nat, right: nat, key: Key, top: int, p: nat, B: seq<Range>)
    requires Promoting(t, left, right, top) && BackLinks(t) && t.nodes[left].parent == Some(p)
    requires p < |t.nodes| && !t.nodes[p].isLeaf && |t.nodes[p].keys| < t.order - 1
    requires t.nodes[left].level + 1 == t.nodes[p].level
    requires ListedFrom(t, t.nodes[left].level, right) && Pending(t, B, left, right, key)
    ensures PromoteFits(t, left, B, InsertIntoParentNode(t, p, right, key, Corrected), B)
  {
    var r := InsertIntoParentNode(t, p, right, key, Corrected);
    var nd := t.nodes[p];
    assert NodeShape(t, p) && NodeShape(t, left);
    assert ListedNode(t, left);
    var j :| 0 <= j < |nd.children| && nd.children[j] == left;
    assert RoomResult(t, p, right, key, r);
    RoomFits(t, left, right, key, p, j, B, r);
    RoomListed(t, left, right, key, p, r);
  }

  /** Every node other than the root and the unlinked `x` lies below the root's level. */
  lemma BelowRoot<V>(t: Tree<V>, x: nat, c: nat)
    requires WellFormedExcept(t, x) && c < |t.nodes| && c != t.root && c != x
    ensures t.nodes[c].level < t.nodes[t.root].level
  {
    assert NodeShape(t, c);
  }

  /** Lines 92-103 on a search tree with the root's split pending: the new root gets the unbounded interval. */
  lemma GrowOrdered<V>(t: Tree<V>, left: nat, right: nat, key: Key, top: int, B: seq<Range>) returns (B2: seq<Range>)
    requires Promoting(t, left, right, top) && t.nodes[left].parent.None?
    requires Pending(t, B, left, right, key)
    ensures PromoteFits(t, left, B, GrowRoot(t, left, right, key), B2)
  {
    var r := GrowRoot(t, left, right, key);
    var nr := |t.nodes|;
    B2 := B + [Full];
    assert left == t.root;
    assert LinksFit(r, B2, nr) by {
      assert r.nodes[nr].children == [left, right] && r.nodes[nr].keys == [key];
    }
    forall c | 0 <= c < |r.nodes| && r.nodes[c].level >= t.nodes[left].level && c != r.root
      ensures ListedNode(r, c)
    {
      assert r.nodes[nr].children[0] == left && r.nodes[nr].children[1] == right;
      if c != left && c != right {
        BelowRoot(t, right, c);
      }
    }
  }

  /** The intervals after the split of `p` at key `kmid`: `p` keeps the part below `kmid`, the new node gets the rest. */
  function HalvesRanges(B: seq<Range>, p: nat, kmid: Key): (B1: seq<Range>)
    requires p < |B|
    ensures |B1| == |B| + 1 && forall n :: 0 <= n < |B| && n != p ==> B1[n] == B[n]
  {
    B[p := Range(B[p].lo, Some(kmid))] + [Range(Some(kmid), B[p].hi)]
  }

  /** The children moved by an internal split of `p` are one level below `p`. */
  lemma NotMoved<V>(t: Tree<V>, p: nat, n: nat)
    requires WellFormed(t) && p < |t.nodes| && !t.nodes[p].isLeaf && |t.nodes[p].keys| == t.order - 1
    requires n < |t.nodes| && t.nodes[n].level + 1 != t.nodes[p].level
    ensures (t.order - 1) / 2 + 1 <= |t.nodes[p].children| && n !in t.nodes[p].children[(t.order - 1) / 2 + 1..]
  {
    assert NodeShape(t, p);
    var nd, mid := t.nodes[p], (t.order - 1) / 2;
    var moved := nd.children[mid + 1..];
    forall k | 0 <= k < |moved|
      ensures moved[k] != n
    {
      assert moved[k] == nd.children[mid + 1 + k];
    }
  }

  /** The common situation of the lemmas about the split of a full parent `p` of `left`. */
  ghost predicate FullParent<V>(t: Tree<V>, left: nat, right: nat, key: Key, p: nat, B: seq<Range>) {
    && WellFormed(t) && BackLinks(t) && left < |t.nodes| && right < |t.nodes| && right != left
    && t.nodes[left].parent == Some(p) && p < |t.nodes| && !t.nodes[p].isLeaf && |t.nodes[p].keys| == t.order - 1
    && t.nodes[left].level + 1 == t.nodes[p].level && t.nodes[right].level == t.nodes[left].level
    && Unlinked(t, right) && Pending(t, B, left, right, key)
  }

  /** After the split of `p`, its own promotion is pending: the slot of `p` spans both halves. */
  lemma HalvesAbove<V>(t: Tree<V>, left: nat, right: nat, key: Key, p: nat, B: seq<Range>, t1: Tree<V>)
    requires WellFormed(t) && p < |t.nodes| && !t.nodes[p].isLeaf && |t.nodes[p].keys| == t.order - 1
    requires left < |t.nodes| && t.nodes[left].level + 1 == t.nodes[p].level && t.nodes[left].parent == Some(p)
    requires Pending(t, B, left, right, key) && SplitExact(t, p, t1)
    ensures var nd, mid := t.nodes[p], (t.order - 1) / 2;
      && mid < |nd.keys|
      && Pending(t1, HalvesRanges(B, p, nd.keys[mid]), p, |t.nodes|, nd.keys[mid])
  {
    var nd, sib, mid := t.nodes[p], |t.nodes|, (t.order - 1) / 2;
    var kmid := nd.keys[mid];
    var B1 := HalvesRanges(B, p, kmid);
    assert NodeShape(t, p) && KeysIn(t, B, p);
    assert InRange(nd.keys[0], B[p]) && Less(nd.keys[0], kmid);
    if B[p].lo.Some? {
      LessEqLessTransitive(B[p].lo.value, nd.keys[0], kmid);
    }
    forall n | 0 <= n < |t1.nodes| && t1.nodes[n].level > t1.nodes[p].level
      ensures LinksFitBut(t1, B1, n, p, sib) && KeysIn(t1, B1, n)
    {
      NotMoved(t, p, n);
      assert t1.nodes[n] == t.nodes[n];
      assert LinksFitBut(t, B, n, left, right) && NodeShape(t, n);
    }
  }

  /** After the split of `p`, every node on `p`'s level and above but the new one is still listed. */
  lemma HalvesAboveListed<V>(t: Tree<V>, left: nat, right: nat, p: nat, t1: Tree<V>)
    requires WellFormed(t) && p < |t.nodes| && !t.nodes[p].isLeaf && |t.nodes[p].keys| == t.order - 1
    requires left < |t.nodes| && t.nodes[left].level + 1 == t.nodes[p].level
    requires right < |t.nodes| && t.nodes[right].level == t.nodes[left].level
    requires ListedFrom(t, t.nodes[left].level, right) && SplitExact(t, p, t1)
    ensures ListedFrom(t1, t.nodes[p].level, |t.nodes|)
  {
    forall c | 0 <= c < |t1.nodes| && t1.nodes[c].level >= t.nodes[p].level && c != |t.nodes| && c != t1.root
      ensures ListedNode(t1, c)
    {
      NotMoved(t, p, c);
      assert ListedNode(t, c) && NodeShape(t, c);
      var q := t.nodes[c].parent.value;
      NotMoved(t, p, q);
    }
  }

  /** After the split of `p`, both halves give the children of `p` the intervals they had. */
  lemma HalvesLevel<V>(t: Tree<V>, left: nat, right: nat, key: Key, p: nat, B: seq<Range>, t1: Tree<V>)
    requires FullParent(t, left, right, key, p, B)
    requires SplitExact(t, p, t1)
    ensures var nd, mid := t.nodes[p], (t.order - 1) / 2;
      && mid < |nd.keys|
      && LevelFitsBut(t1, HalvesRanges(B, p, nd.keys[mid]), t.nodes[p].level, left, right)
  {
    var nd, sib, mid := t.nodes[p], |t.nodes|, (t.order - 1) / 2;
    var kmid := nd.keys[mid];
    var B1 := HalvesRanges(B, p, kmid);
    assert NodeShape(t, p) && KeysIn(t, B, p) && LinksFitBut(t, B, p, left, right);
    assert left != p && right != p;
    HalvesKept(t, left, right, key, p, B, t1);
    HalvesSibling(t, left, right, key, p, B, t1);
    forall n | 0 <= n < |t1.nodes| && t1.nodes[n].level == t.nodes[p].level
      ensures LinksFitBut(t1, B1, n, left, right) && KeysIn(t1, B1, n)
    {
      if n != p && n != sib {
        NotMoved(t, p, n);
        assert t1.nodes[n] == t.nodes[n];
        assert NodeShape(t, n) && LinksFitBut(t, B, n, left, right);
        FitsKept(t, B, t1, B1, n, left, right);
      }
    }
  }

  /** Both halves of a split node give their children the slots they had, with `mid`'s key as the bound between them. */
  lemma HalfSlots(B: seq<Range>, B1: seq<Range>, r: Range, keys: seq<Key>, cs: seq<nat>, mid: nat, left: nat, right: nat)
    requires mid < |keys| && |cs| == |keys| + 1 && left < |B| && right < |B| && left < |B1| && right < |B1|
    requires B1[left] == B[left] && B1[right] == B[right]
    requires forall i :: 0 <= i < |cs| ==> cs[i] < |B| && cs[i] < |B1| && B1[cs[i]] == B[cs[i]]
    requires SlotsFit(B, r, keys, cs, left, right)
    ensures SlotsFit(B1, Range(r.lo, Some(keys[mid])), keys[..mid], cs[..mid + 1], left, right)
    ensures SlotsFit(B1, Range(Some(keys[mid]), r.hi), keys[mid + 1..], cs[mid + 1..], left, right)
  {
    forall i | 0 <= i < mid + 1
      ensures ChildRange(Range(r.lo, Some(keys[mid])), keys[..mid], i) == ChildRange(r, keys, i)
    {
      ChildRangeHalves(r, keys, mid, i);
    }
    var ru, ku, cu := Range(Some(keys[mid]), r.hi), keys[mid + 1..], cs[mid + 1..];
    forall i | 0 <= i < |cu|
      ensures ChildRange(ru, ku, i) == ChildRange(r, keys, mid + 1 + i) && cu[i] == cs[mid + 1 + i]
    {
      ChildRangeHalves(r, keys, mid, mid + 1 + i);
    }
  }

  lemma HalvesKept<V>(t: Tree<V>, left: nat, right: nat, key: Key, p: nat, B: seq<Range>, t1: Tree<V>)
    requires p < |t.nodes| == |B| && left < |B| && right < |B| && left != p && right != p && t.order >= 3
    requires ContentShape(t, p) && !t.nodes[p].isLeaf && |t.nodes[p].keys| == t.order - 1
    requires KeysIn(t, B, p) && LinksFitBut(t, B, p, left, right) && SplitExact(t, p, t1)
    ensures var nd, mid := t.nodes[p], (t.order - 1) / 2;
      && mid < |nd.keys|
      && var B1 := HalvesRanges(B, p, nd.keys[mid]);
      && LinksFitBut(t1, B1, p, left, right) && KeysIn(t1, B1, p)
  {
    var nd, mid := t.nodes[p], (t.order - 1) / 2;
    var B1 := HalvesRanges(B, p, nd.keys[mid]);
    HalvesChildren(t, p, B, B1);
    HalfSlots(B, B1, B[p], nd.keys, nd.children, mid, left, right);
  }

  /** The children of the split node keep their intervals. */
  lemma HalvesChildren<V>(t: Tree<V>, p: nat, B: seq<Range>, B1: seq<Range>)
    requires p < |t.nodes| == |B| && ContentShape(t, p) && !t.nodes[p].isLeaf
    requires |B1| == |B| + 1 && forall n :: 0 <= n < |B| && n != p ==> B1[n] == B[n]
    ensures var cs := t.nodes[p].children;
      forall i :: 0 <= i < |cs| ==> cs[i] < |B| && cs[i] < |B1| && B1[cs[i]] == B[cs[i]]
  {
    var cs := t.nodes[p].children;
    forall i | 0 <= i < |cs|
      ensures cs[i] < |B| && cs[i] != p
    {
    }
  }

  lemma HalvesSibling<V>(t: Tree<V>, left: nat, right: nat, key: Key, p: nat, B: seq<Range>, t1: Tree<V>)
    requires p < |t.nodes| == |B| && left < |B| && right < |B| && left != p && right != p && t.order >= 3
    requires ContentShape(t, p) && !t.nodes[p].isLeaf && |t.nodes[p].keys| == t.order - 1
    requires KeysIn(t, B, p) && LinksFitBut(t, B, p, left, right) && SplitExact(t, p, t1)
    ensures var nd, mid := t.nodes[p], (t.order - 1) / 2;
      && mid < |nd.keys|
      && var B1 := HalvesRanges(B, p, nd.keys[mid]);
      && LinksFitBut(t1, B1, |t.nodes|, left, right) && KeysIn(t1, B1, |t.nodes|)
  {
    var nd, sib, mid := t.nodes[p], |t.nodes|, (t.order - 1) / 2;
    var B1 := HalvesRanges(B, p, nd.keys[mid]);
    HalvesChildren(t, p, B, B1);
    HalfSlots(B, B1, B[p], nd.keys, nd.children, mid, left, right);
    UpperKeys(B[p], nd.keys, mid, t1.nodes[sib].keys);
  }

  /** The keys `up` above the separator `keys[mid]` lie in the upper half of the interval. */
  lemma UpperKeys(r: Range, keys: seq<Key>, mid: nat, up: seq<Key>)
    requires StrictlySorted(keys) && mid < |keys| && forall j :: 0 <= j < |keys| ==> InRange(keys[j], r)
    requires up == keys[mid + 1..]
    ensures StrictlySorted(up) && forall j :: 0 <= j < |up| ==> InRange(up[j], Range(Some(keys[mid]), r.hi))
  {
    forall j | 0 <= j < |up|
      ensures InRange(up[j], Range(Some(keys[mid]), r.hi))
    {
      assert up[j] == keys[mid + 1 + j];
      LessTrichotomy(keys[mid], up[j]);
    }
  }

  /** After the split of `p`, every node on `left`'s level but `right` is still listed by its parent. */
  lemma HalvesListed<V>(t: Tree<V>, left: nat, right: nat, key: Key, p: nat, B: seq<Range>, t1: Tree<V>)
    requires WellFormed(t) && p < |t.nodes| && !t.nodes[p].isLeaf && |t.nodes[p].keys| == t.order - 1
    requires left < |t.nodes| && t.nodes[left].level + 1 == t.nodes[p].level
    requires ListedFrom(t, t.nodes[left].level, right) && SplitExact(t, p, t1)
    ensures ListedOn(t1, t.nodes[left].level, right)
  {
    var nd, sib, mid := t.nodes[p], |t.nodes|, (t.order - 1) / 2;
    var moved := nd.children[mid + 1..];
    assert NodeShape(t, p);
    forall c | 0 <= c < |t1.nodes| && t1.nodes[c].level == t.nodes[left].level && c != right
      ensures ListedNode(t1, c)
    {
      if c != t1.root {
        assert ListedNode(t, c) && NodeShape(t, c);
        var q := t.nodes[c].parent.value;
        if c !in moved {
          NotMoved(t, p, q);
          if q == p {
            assert nd.children == nd.children[..mid + 1] + moved;
          }
        }
      }
    }
  }

  /** The state after the split of the full parent `p` of `left` into `t1`, with intervals `B1`. */
  ghost predicate Halved<V>(t: Tree<V>, left: nat, right: nat, key: Key, p: nat, B: seq<Range>, t1: Tree<V>, B1: seq<Range>) {
    && p < |t.nodes| == |B| && left < |t.nodes| && right < |t.nodes| && left != p && right != p && left != t.root
    && t.nodes[left].level + 1 == t.nodes[p].level && t.nodes[right].level == t.nodes[left].level
    && SplitAt(B, left, right, key)
    && |t1.nodes| == |t.nodes| + 1 && t1.root == t.root && Extends(t, t1) && WellFormedExcept(t1, |t.nodes|)
    && (t.order - 1) / 2 < |t.nodes[p].keys| && B1 == HalvesRanges(B, p, t.nodes[p].keys[(t.order - 1) / 2])
    && LevelFitsBut(t1, B1, t.nodes[left].level + 1, left, right) && ListedOn(t1, t.nodes[left].level, right)
  }

  /** Lines 150-166 up to the promotion: the split of `p` leaves its own promotion pending. */
  lemma HalvesReady<V>(t: Tree<V>, left: nat, right: nat, key: Key, top: int, p: nat, B: seq<Range>) returns (t1: Tree<V>, B1: seq<Range>)
    requires Promoting(t, left, right, top) && BackLinks(t) && t.nodes[left].parent == Some(p)
    requires p < |t.nodes| && !t.nodes[p].isLeaf && |t.nodes[p].keys| == t.order - 1
    requires t.nodes[left].level + 1 == t.nodes[p].level
    requires ListedFrom(t, t.nodes[left].level, right) && Pending(t, B, left, right, key)
    ensures WellFormed(t) && t.nodes[t.root].level + 1 <= top && (t.order - 1) / 2 < |t.nodes[p].keys|
    ensures t1 == SplitInternalHalves(t, p) && |B| == |t.nodes|
    ensures var kmid := t.nodes[p].keys[(t.order - 1) / 2];
      && Promoting(t1, p, |t.nodes|, top) && BackLinks(t1)
      && ListedFrom(t1, t1.nodes[p].level, |t.nodes|) && Pending(t1, B1, p, |t.nodes|, kmid)
      && Halved(t, left, right, key, p, B, t1, B1)
  {
    assert NodeShape(t, left) && WellFormed(t);
    var mid := (t.order - 1) / 2;
    t1 := SplitInternalHalves(t, p);
    B1 := HalvesRanges(B, p, t.nodes[p].keys[mid]);
    assert FullParent(t, left, right, key, p, B);
    HalvesAbove(t, left, right, key, p, B, t1);
    HalvesAboveListed(t, left, right, p, t1);
    HalvesLevel(t, left, right, key, p, B, t1);
    HalvesListed(t, left, right, key, p, B, t1);
    assert left != t.root && left != p && right != p;
  }

  /**
    After the promotion of the parent's split into `t2`, the split of `left`
    is pending again, with the intervals `Bm` that promotion left: the level
    of `left`'s parent fits as it did after the split.
  */
  lemma RetryPending<V>(t: Tree<V>, left: nat, right: nat, key: Key, p: nat, B: seq<Range>, t1: Tree<V>, B1: seq<Range>, t2: Tree<V>, Bm: seq<Range>)
    requires Halved(t, left, right, key, p, B, t1, B1)
    requires Promoted(t1, p, |t.nodes|, t.nodes[p].keys[(t.order - 1) / 2], Corrected, t2)
    requires PromoteFits(t1, p, B1, t2, Bm)
    ensures t2.nodes[left].level == t.nodes[left].level
    ensures Pending(t2, Bm, left, right, key) && ListedFrom(t2, t2.nodes[left].level, right)
    ensures Agree(t, B, Bm, t.nodes[left].level)
  {
    var l := t.nodes[left].level;
    assert t1.nodes[left].level == l && t1.nodes[right].level == l && t1.nodes[p].level == l + 1;
    assert B1[left] == B[left] && B1[right] == B[right];
    assert t2.nodes[left] == t1.nodes[left] && NodeShape(t1, left);
    RetryFits(t1, t2, left, right, key, B1, Bm, |t.nodes|, l);
    RetryListed(t1, t2, right, |t.nodes|, l);
    forall n | 0 <= n < |t.nodes| && t.nodes[n].level <= l
      ensures n < |B| && n < |Bm| && Bm[n] == B[n]
    {
      assert t1.nodes[n].level == t.nodes[n].level && n != p;
      assert Bm[n] == B1[n] == B[n];
    }
  }

  /** The interval half of `RetryPending`. */
  lemma RetryFits<V>(t1: Tree<V>, t2: Tree<V>, left: nat, right: nat, key: Key, B1: seq<Range>, Bm: seq<Range>, x: nat, l: nat)
    requires WellFormedExcept(t1, x) && left < |t1.nodes| && right < |t1.nodes| && |B1| == |t1.nodes|
    requires t1.nodes[left].level == l && t1.nodes[right].level == l
    requires WellFormed(t2) && FramedAbove(t1, t2, l + 1) && t2.nodes[left].parent.Some?
    requires SplitAt(B1, left, right, key) && LevelFitsBut(t1, B1, l + 1, left, right)
    requires |Bm| == |t2.nodes| && t2.root < |Bm| && Bm[t2.root] == Full && OrderedFrom(t2, Bm, l + 1)
    requires Agree(t1, B1, Bm, l + 1)
    ensures Pending(t2, Bm, left, right, key)
  {
    forall n | 0 <= n < |t2.nodes| && t2.nodes[n].level > l
      ensures LinksFitBut(t2, Bm, n, left, right) && KeysIn(t2, Bm, n)
    {
      assert NodeShape(t2, n);
      if t2.nodes[n].level == l + 1 {
        assert NodeShape(t1, n) && SameButParent(t1, t2, n);
        forall i | 0 <= i < |t1.nodes[n].children|
          ensures Bm[t1.nodes[n].children[i]] == B1[t1.nodes[n].children[i]]
        {
          assert Agree(t1, B1, Bm, l + 1);
        }
        assert Agree(t1, B1, Bm, l + 1);
        FitsKept(t1, B1, t2, Bm, n, left, right);
      } else {
        assert LinksFit(t2, Bm, n);
      }
    }
  }

  /** The listing half of `RetryPending`. */
  lemma RetryListed<V>(t1: Tree<V>, t2: Tree<V>, right: nat, x: nat, l: nat)
    requires WellFormedExcept(t1, x) && WellFormed(t2) && FramedAbove(t1, t2, l + 1)
    requires ListedOn(t1, l, right) && ListedFrom(t2, l + 1, t2.root)
    ensures ListedFrom(t2, l, right)
  {
    forall c | 0 <= c < |t2.nodes| && t2.nodes[c].level >= l && c != right
      ensures ListedNode(t2, c)
    {
      if t2.nodes[c].level == l && c != t2.root {
        assert ListedNode(t1, c) && NodeShape(t1, c);
        assert SameButParent(t1, t2, t1.nodes[c].parent.value);
      }
    }
  }

  /**
    `insert_into_parent` corrected, on a tree whose split of `left` is
    pending: it returns an arena with fitting intervals above `left`'s
    level, every node there listed, and the intervals of `left`'s level and
    below as they were.
  */
  lemma PromoteOrdered<V>(t: Tree<V>, left: nat, right: nat, key: Key, top: int, B: seq<Range>) returns (B2: seq<Range>)
    requires Promoting(t, left, right, top) && BackLinks(t)
    requires ListedFrom(t, t.nodes[left].level, right) && Pending(t, B, left, right, key)
    ensures PromoteFits(t, left, B, InsertIntoParent(t, left, right, key, top, Corrected), B2)
    decreases top - t.nodes[left].level, if Roomy(t, left) then 0 else 2
  {
    match t.nodes[left].parent
    case None =>
      B2 := GrowOrdered(t, left, right, key, top, B);
    case Some(p) =>
      assert NodeShape(t, left) && NodeShape(t, p);
      if |t.nodes[p].keys| < t.order - 1 {
        RoomOrdered(t, left, right, key, top, p, B);
        B2 := B;
      } else {
        B2 := RetryOrdered(t, left, right, key, top, p, B);
      }
  }

  /** Lines 113-116 corrected: split the full parent, then promote into the parent that now has room. */
  lemma RetryOrdered<V>(t: Tree<V>, left: nat, right: nat, key: Key, top: int, p: nat, B: seq<Range>) returns (B2: seq<Range>)
    requires Promoting(t, left, right, top) && BackLinks(t) && t.nodes[left].parent == Some(p)
    requires p < |t.nodes| && !t.nodes[p].isLeaf && |t.nodes[p].keys| == t.order - 1
    requires t.nodes[left].level + 1 == t.nodes[p].level
    requires ListedFrom(t, t.nodes[left].level, right) && Pending(t, B, left, right, key)
    ensures PromoteFits(t, left, B, InsertIntoParent(t, left, right, key, top, Corrected), B2)
    decreases top - t.nodes[left].level, 1
  {
    var Bm := SplitParentOrdered(t, left, right, key, top, p, B);
    var t2 := SplitInternalNode(t, p, top, Corrected);
    RetryReady(t, left, right, top, p, t2);
    B2 := PromoteOrdered(t2, left, right, key, top, Bm);
    RetryUnfold(t, left, right, key, top, p);
    FitsBack(t, t2, left, B, Bm, InsertIntoParent(t2, left, right, key, top, Corrected), B2);
  }

  /** Line 116: with a full parent, the promotion is the retry after the parent's split. */
  lemma RetryUnfold<V>(t: Tree<V>, left: nat, right: nat, key: Key, top: int, p: nat)
    requires Promoting(t, left, right, top) && t.nodes[left].parent == Some(p)
    requires p < |t.nodes| && |t.nodes[p].keys| == t.order - 1
    ensures WellFormed(t) && !t.nodes[p].isLeaf && t.nodes[t.root].level + 1 <= top
    ensures var t2 := SplitInternalNode(t, p, top, Corrected);
      Promoting(t2, left, right, top)
      && InsertIntoParent(t, left, right, key, top, Corrected) == InsertIntoParent(t2, left, right, key, top, Corrected)
  {
    assert NodeShape(t, left) && NodeShape(t, p) && WellFormed(t);
    var t2 := SplitInternalNode(t, p, top, Corrected);
    RetryReady(t, left, right, top, p, t2);
  }

  /** A promotion's outcome for the arena `t2` after the parent's split is one for `t` too. */
  lemma FitsBack<V>(t: Tree<V>, t2: Tree<V>, left: nat, B: seq<Range>, Bm: seq<Range>, r: Tree<V>, B2: seq<Range>)
    requires left < |t.nodes| && Extends(t, t2) && t2.nodes[left].level == t.nodes[left].level
    requires Agree(t, B, Bm, t.nodes[left].level) && PromoteFits(t2, left, Bm, r, B2)
    ensures PromoteFits(t, left, B, r, B2)
  {
    forall n | 0 <= n < |t.nodes| && t.nodes[n].level <= t.nodes[left].level
      ensures n < |B| && n < |B2| && B2[n] == B[n]
    {
      assert t2.nodes[n].level == t.nodes[n].level;
      assert Agree(t2, Bm, B2, t.nodes[left].level);
    }
  }

  /**
    Line 114 corrected, on a tree with the split of `left` pending: after
    `split_internal_node` of the full parent `p`, that split is pending
    again in the new arena, and no interval of `left`'s level or below moved.
  */
  lemma SplitParentOrdered<V>(t: Tree<V>, left: nat, right: nat, key: Key, top: int, p: nat, B: seq<Range>) returns (Bm: seq<Range>)
    requires Promoting(t, left, right, top) && BackLinks(t) && t.nodes[left].parent == Some(p)
    requires p < |t.nodes| && !t.nodes[p].isLeaf && |t.nodes[p].keys| == t.order - 1
    requires t.nodes[left].level + 1 == t.nodes[p].level
    requires ListedFrom(t, t.nodes[left].level, right) && Pending(t, B, left, right, key)
    ensures WellFormed(t) && t.nodes[t.root].level + 1 <= top
    ensures var t2 := SplitInternalNode(t, p, top, Corrected);
      && t2.nodes[left].level == t.nodes[left].level
      && Pending(t2, Bm, left, right, key) && ListedFrom(t2, t2.nodes[left].level, right)
      && Agree(t, B, Bm, t.nodes[left].level)
    decreases top - t.nodes[left].level, 0
  {
    var t1, B1 := HalvesReady(t, left, right, key, top, p, B);
    var kmid := t.nodes[p].keys[(t.order - 1) / 2];
    Bm := PromoteOrdered(t1, p, |t.nodes|, kmid, top, B1);
    var t2 := SplitInternalNode(t, p, top, Corrected);
    assert t2 == InsertIntoParent(t1, p, |t.nodes|, kmid, top, Corrected);
    RetryPending(t, left, right, key, p, B, t1, B1, t2, Bm);
  }

  // ---------------------------------------------------------------- leaves

  /** A key of the interval that no node key equals goes in at `InsertPos`, keeping the keys strictly increasing and in the interval. */
  lemma InsertedStrict(r: Range, keys: seq<Key>, key: Key)
    requires StrictlySorted(keys) && forall i :: 0 <= i < |keys| ==> InRange(keys[i], r)
    requires InRange(key, r) && key !in keys
    ensures var j := InsertPos(keys, key);
      var ks := keys[..j] + [key] + keys[j..];
      StrictlySorted(ks) && forall i :: 0 <= i < |ks| ==> InRange(ks[i], r)
  {
    var j := InsertPos(keys, key);
    var ks := keys[..j] + [key] + keys[j..];
    if j > 0 {
      LessTrichotomy(keys[j - 1], key);
    }
    forall a, b | 0 <= a < b < |ks|
      ensures Less(ks[a], ks[b])
    {
      if a < j && b == j {
        if a < j - 1 {
          LessTransitive(keys[a], keys[j - 1], key);
        }
      } else if a < j && b > j {
        assert ks[b] == keys[b - 1];
        if a < j - 1 {
          LessTransitive(keys[a], keys[j - 1], key);
        }
        LessTransitive(keys[a], key, keys[b - 1]);
      } else if a == j {
        assert ks[b] == keys[b - 1];
      } else if a > j {
        assert ks[a] == keys[a - 1] && ks[b] == keys[b - 1];
      }
    }
    forall i | 0 <= i < |ks|
      ensures InRange(ks[i], r)
    {
      if i > j {
        assert ks[i] == keys[i - 1];
      }
    }
  }

  /**
    Lines 183-185 on a search tree, for a key of the leaf's interval that
    the leaf does not hold: the intervals still fit and every node is still
    listed.
  */
  lemma IntoLeafOrdered<V>(t: Tree<V>, leaf: nat, key: Key, v: V, B: seq<Range>)
    requires WellFormed(t) && Listed(t) && Ordered(t, B)
    requires leaf < |t.nodes| && t.nodes[leaf].isLeaf && |t.nodes[leaf].keys| < t.order - 1
    requires InRange(key, B[leaf]) && key !in t.nodes[leaf].keys
    ensures Ordered(InsertIntoLeaf(t, leaf, key, v), B) && Listed(InsertIntoLeaf(t, leaf, key, v))
  {
    var r := InsertIntoLeaf(t, leaf, key, v);
    var nd := t.nodes[leaf];
    assert NodeShape(t, leaf) && KeysIn(t, B, leaf);
    var j := InsertPos(nd.keys, key);
    assert r.nodes[leaf] == InsertIntoNodeNoSplit(nd, key, Value(v));
    assert r.nodes[leaf].keys == nd.keys[..j] + [key] + nd.keys[j..];
    InsertedStrict(B[leaf], nd.keys, key);
    forall n | 0 <= n < |r.nodes|
      ensures LinksFit(r, B, n) && KeysIn(r, B, n) && r.nodes[n].children == t.nodes[n].children
    {
      if n != leaf {
        assert LinksFit(t, B, n) && KeysIn(t, B, n);
      }
    }
    forall c | 0 <= c < |r.nodes| && c != r.root
      ensures ListedNode(r, c)
    {
      assert ListedNode(t, c);
    }
  }

  /** The intervals after a leaf split, up to the promotion: the leaf keeps the part below `s`, the new leaf the rest. */
  lemma LeafHalvesPending<V>(t: Tree<V>, leaf: nat, B: seq<Range>)
    requires Valid(t) && Listed(t) && Ordered(t, B)
    requires leaf < |t.nodes| && t.nodes[leaf].isLeaf && |t.nodes[leaf].keys| == t.order - 1
    ensures var t1, mid := SplitLeafHalves(t, leaf), t.order / 2;
      && 0 < mid < |t.nodes[leaf].keys|
      && var Bh := HalvesRanges(B, leaf, t.nodes[leaf].keys[mid]);
      && Pending(t1, Bh, leaf, |t.nodes|, t.nodes[leaf].keys[mid])
      && ListedFrom(t1, 0, |t.nodes|)
      && forall n :: 0 <= n < |t1.nodes| && t1.nodes[n].level == 0 ==> KeysIn(t1, Bh, n)
  {
    var t1 := SplitLeafHalves(t, leaf);
    LeafHalvesAbove(t, leaf, B, t1);
    LeafHalvesListed(t, leaf, t1);
    LeafHalvesKeys(t, leaf, B, t1);
  }

  lemma LeafHalvesAbove<V>(t: Tree<V>, leaf: nat, B: seq<Range>, t1: Tree<V>)
    requires Valid(t) && Ordered(t, B)
    requires leaf < |t.nodes| && t.nodes[leaf].isLeaf && |t.nodes[leaf].keys| == t.order - 1
    requires t1 == SplitLeafHalves(t, leaf)
    ensures var mid := t.order / 2;
      && 0 < mid < |t.nodes[leaf].keys|
      && Pending(t1, HalvesRanges(B, leaf, t.nodes[leaf].keys[mid]), leaf, |t.nodes|, t.nodes[leaf].keys[mid])
  {
    var nd, nl, mid := t.nodes[leaf], |t.nodes|, t.order / 2;
    var s := nd.keys[mid];
    var Bh := HalvesRanges(B, leaf, s);
    assert NodeShape(t, leaf) && KeysIn(t, B, leaf);
    assert InRange(nd.keys[0], B[leaf]) && Less(nd.keys[0], s);
    if B[leaf].lo.Some? {
      LessEqLessTransitive(B[leaf].lo.value, nd.keys[0], s);
    }
    forall n | 0 <= n < |t1.nodes| && t1.nodes[n].level > 0
      ensures LinksFitBut(t1, Bh, n, leaf, nl) && KeysIn(t1, Bh, n)
    {
      assert LinksFit(t, B, n) && KeysIn(t, B, n) && NodeShape(t, n);
    }
  }

  lemma LeafHalvesListed<V>(t: Tree<V>, leaf: nat, t1: Tree<V>)
    requires Valid(t) && Listed(t)
    requires leaf < |t.nodes| && t.nodes[leaf].isLeaf && |t.nodes[leaf].keys| == t.order - 1
    requires t1 == SplitLeafHalves(t, leaf)
    ensures ListedFrom(t1, 0, |t.nodes|)
  {
    forall c | 0 <= c < |t1.nodes| && c != |t.nodes| && c != t1.root
      ensures ListedNode(t1, c)
    {
      assert ListedNode(t, c) && NodeShape(t, c);
    }
  }

  lemma LeafHalvesKeys<V>(t: Tree<V>, leaf: nat, B: seq<Range>, t1: Tree<V>)
    requires Valid(t) && Ordered(t, B)
    requires leaf < |t.nodes| && t.nodes[leaf].isLeaf && |t.nodes[leaf].keys| == t.order - 1
    requires t1 == SplitLeafHalves(t, leaf)
    ensures var mid := t.order / 2;
      && mid < |t.nodes[leaf].keys|
      && var Bh := HalvesRanges(B, leaf, t.nodes[leaf].keys[mid]);
      && forall n :: 0 <= n < |t1.nodes| && t1.nodes[n].level == 0 ==> KeysIn(t1, Bh, n)
  {
    var nd, nl, mid := t.nodes[leaf], |t.nodes|, t.order / 2;
    var s := nd.keys[mid];
    var Bh := HalvesRanges(B, leaf, s);
    assert NodeShape(t, leaf) && KeysIn(t, B, leaf);
    assert t1.nodes[leaf].keys == nd.keys[..mid] by {
      assert t1.nodes[leaf].keys + t1.nodes[nl].keys == nd.keys;
    }
    assert t1.nodes[nl].keys == nd.keys[mid..] by {
      assert t1.nodes[leaf].keys + t1.nodes[nl].keys == nd.keys;
    }
    forall i | 0 <= i < |t1.nodes[nl].keys|
      ensures InRange(t1.nodes[nl].keys[i], Bh[nl])
    {
      assert t1.nodes[nl].keys[i] == nd.keys[mid + i];
      LessTrichotomy(s, nd.keys[mid + i]);
    }
    forall n | 0 <= n < |t1.nodes| && t1.nodes[n].level == 0
      ensures KeysIn(t1, Bh, n)
    {
      if n != leaf && n != nl {
        assert KeysIn(t, B, n);
      }
    }
  }

  /** The leaves keep their keys and intervals through the promotion, so the intervals fit on every level. */
  lemma LeavesFit<V>(t1: Tree<V>, Bh: seq<Range>, r: Tree<V>, Bp: seq<Range>)
    requires WellFormed(r) && FramedAbove(t1, r, 0) && |Bh| == |t1.nodes|
    requires forall n :: 0 <= n < |t1.nodes| && t1.nodes[n].level == 0 ==> KeysIn(t1, Bh, n)
    requires Agree(t1, Bh, Bp, 0) && OrderedFrom(r, Bp, 0)
    ensures OrderedFrom(r, Bp, -1)
  {
    forall n | 0 <= n < |r.nodes| && r.nodes[n].level == 0
      ensures LinksFit(r, Bp, n) && KeysIn(r, Bp, n)
    {
      assert NodeShape(r, n) && SameButParent(t1, r, n) && KeysIn(t1, Bh, n);
    }
  }

  /**
    `split_leaf_node` corrected, on a search tree: the intervals fit on
    the whole arena, every node is listed, and the two halves of the leaf
    split its interval at the new leaf's first key.
  */
  lemma SplitLeafOrdered<V>(t: Tree<V>, leaf: nat, B: seq<Range>) returns (B1: seq<Range>)
    requires Valid(t) && Listed(t) && Ordered(t, B)
    requires leaf < |t.nodes| && t.nodes[leaf].isLeaf && |t.nodes[leaf].keys| == t.order - 1
    ensures var r, mid := SplitLeafNode(t, leaf, Corrected), t.order / 2;
      && mid < |t.nodes[leaf].keys| && |t.nodes| < |r.nodes| == |B1|
      && Ordered(r, B1) && Listed(r)
      && B1[leaf] == Range(B[leaf].lo, Some(t.nodes[leaf].keys[mid]))
      && B1[|t.nodes|] == Range(Some(t.nodes[leaf].keys[mid]), B[leaf].hi)
  {
    var t1, nl, mid := SplitLeafHalves(t, leaf), |t.nodes|, t.order / 2;
    var s := t.nodes[leaf].keys[mid];
    var Bh := HalvesRanges(B, leaf, s);
    LeafHalvesPending(t, leaf, B);
    SplitLeafPromoting(t, leaf);
    assert t1.nodes[nl].keys[0] == s;
    assert Bh[leaf] == Range(B[leaf].lo, Some(s)) && Bh[nl] == Range(Some(s), B[leaf].hi);
    B1 := LeafPromoteOrdered(t1, leaf, nl, s, Ceiling(t), Bh);
    assert SplitLeafNode(t, leaf, Corrected) == InsertIntoParent(t1, leaf, nl, s, Ceiling(t), Corrected);
  }

  /** The promotion at line 141 corrected, after a leaf split: all intervals fit and every node is listed. */
  lemma LeafPromoteOrdered<V>(t1: Tree<V>, leaf: nat, nl: nat, s: Key, top: int, Bh: seq<Range>) returns (B1: seq<Range>)
    requires Promoting(t1, leaf, nl, top) && BackLinks(t1) && t1.nodes[leaf].level == 0
    requires ListedFrom(t1, 0, nl) && Pending(t1, Bh, leaf, nl, s)
    requires forall n :: 0 <= n < |t1.nodes| && t1.nodes[n].level == 0 ==> KeysIn(t1, Bh, n)
    ensures var r := InsertIntoParent(t1, leaf, nl, s, top, Corrected);
      && |B1| == |r.nodes| && Ordered(r, B1) && Listed(r)
      && B1[leaf] == Bh[leaf] && B1[nl] == Bh[nl]
  {
    B1 := PromoteOrdered(t1, leaf, nl, s, top, Bh);
    var r := InsertIntoParent(t1, leaf, nl, s, top, Corrected);
    LeavesFit(t1, Bh, r, B1);
    assert Agree(t1, Bh, B1, 0) && t1.nodes[nl].level == 0;
  }

  // ---------------------------------------------------------------- insert and create

  /** `insert` corrected, of a key not yet stored, keeps a search tree a search tree. */
  lemma InsertSearchTree<V>(t: Tree<V>, key: Key, v: V)
    requires SearchTree(t) && Search(t, key) == None
    ensures SearchTree(Insert(t, key, v, Corrected))
  {
    var B :| Ordered(t, B);
    var leaf := FindLeaf(t, key);
    DescendIn(t, B, t.root, key);
    assert NodeShape(t, leaf);
    var r := Insert(t, key, v, Corrected);
    if |t.nodes[leaf].keys| == t.order - 1 {
      var B1 := SplitLeafOrdered(t, leaf, B);
      var t1 := SplitLeafNode(t, leaf, Corrected);
      var nl, mid := |t.nodes|, t.order / 2;
      var nd := t.nodes[leaf];
      assert t1.nodes[leaf].keys == nd.keys[..mid] && t1.nodes[nl].keys == nd.keys[mid..] by {
        assert t1.nodes[leaf].keys + t1.nodes[nl].keys == nd.keys;
      }
      var target := if !Less(key, t1.nodes[nl].keys[0]) then nl else leaf;
      if target == nl {
        LessTrichotomy(key, nd.keys[mid]);
      }
      IntoLeafOrdered(t1, target, key, v, B1);
      assert r == InsertIntoLeaf(t1, target, key, v);
    } else {
      IntoLeafOrdered(t, leaf, key, v, B);
    }
  }

  /** After `insert` of a key not yet stored, `search` finds the new value under that key and answers as before for every other key. */
  lemma SearchAfterInsert<V>(t: Tree<V>, key: Key, v: V, other: Key)
    requires SearchTree(t) && Search(t, key) == None
    ensures SearchTree(Insert(t, key, v, Corrected))
    ensures Search(Insert(t, key, v, Corrected), key) == Some(v)
    ensures other != key ==> Search(Insert(t, key, v, Corrected), other) == Search(t, other)
  {
    var r := Insert(t, key, v, Corrected);
    InsertSearchTree(t, key, v);
    SearchFinds(r, key, v);
    if other != key {
      match Search(t, other)
      case Some(w) =>
        SearchFinds(t, other, w);
        SearchFinds(r, other, w);
      case None =>
        if Search(r, other).Some? {
          var w := Search(r, other).value;
          SearchFinds(r, other, w);
          SearchFinds(t, other, w);
        }
    }
  }

  /** `create_bplus_tree` of an order of at least 3 gives a search tree. */
  lemma CreateSearchTree<V>(order: int)
    requires order >= 3
    ensures CreateBPlusTree<V>(order).Some? && SearchTree(CreateBPlusTree<V>(order).value)
  {
    var t := CreateBPlusTree<V>(order).value;
    assert Ordered(t, [Full]);
  }

  // ---------------------------------------------------------------- search

  /** From any node whose interval holds `k`, the descent reaches the same leaf as from the root. */
  lemma {:induction false} DescendTo<V>(t: Tree<V>, B: seq<Range>, c: nat, k: Key)
    requires WellFormed(t) && Listed(t) && Ordered(t, B)
    requires c < |t.nodes| && InRange(k, B[c])
    ensures Descend(t, t.root, k) == Descend(t, c, k)
    decreases t.nodes[t.root].level - t.nodes[c].level
  {
    if c != t.root {
      assert ListedNode(t, c) && NodeShape(t, c);
      var p := t.nodes[c].parent.value;
      var nd := t.nodes[p];
      assert NodeShape(t, p) && LinksFit(t, B, p) && KeysIn(t, B, p);
      var i :| 0 <= i < |nd.children| && nd.children[i] == c;
      ChildIndexIn(B[p], nd.keys, i, k);
      RangeNest(B[p], nd.keys, i, k);
      DescendTo(t, B, p, k);
    }
  }

  /** The descent from a node whose interval holds `k` stays inside intervals that hold `k`. */
  lemma {:induction false} DescendIn<V>(t: Tree<V>, B: seq<Range>, n: nat, k: Key)
    requires WellFormed(t) && Ordered(t, B)
    requires n < |t.nodes| && InRange(k, B[n])
    ensures InRange(k, B[Descend(t, n, k)])
    decreases t.nodes[n].level
  {
    var nd := t.nodes[n];
    if !nd.isLeaf {
      assert NodeShape(t, n) && LinksFit(t, B, n);
      var i := ChildIndex(nd.keys, k);
      DescendIn(t, B, nd.children[i], k);
    }
  }

  /** `find_leaf` takes every stored key to the leaf that stores it. */
  lemma FindLeafOf<V>(t: Tree<V>, B: seq<Range>, n: nat, j: nat)
    requires WellFormed(t) && Listed(t) && Ordered(t, B)
    requires n < |t.nodes| && t.nodes[n].isLeaf && j < |t.nodes[n].keys|
    ensures FindLeaf(t, t.nodes[n].keys[j]) == n
  {
    assert KeysIn(t, B, n);
    DescendTo(t, B, n, t.nodes[n].keys[j]);
  }

  /** Every node's entries are part of the contents. */
  lemma {:induction false} EntriesHas<V>(nodes: seq<Node<V>>, k: nat, n: nat)
    requires n < k <= |nodes|
    ensures LeafEntries(nodes[n]) <= SumUpTo(nodes, k, LeafEntries)
  {
    if n < k - 1 {
      EntriesHas(nodes, k - 1, n);
    }
  }

  /** Every entry of the contents is stored by some node. */
  lemma {:induction false} EntriesFrom<V>(nodes: seq<Node<V>>, k: nat, e: (Key, V)) returns (n: nat)
    requires k <= |nodes| && e in SumUpTo(nodes, k, LeafEntries)
    ensures n < k && e in LeafEntries(nodes[n])
  {
    if e in LeafEntries(nodes[k - 1]) {
      n := k - 1;
    } else {
      n := EntriesFrom(nodes, k - 1, e);
    }
  }

  /**
    In a search tree, `search` returns `v` for `key` exactly when the pair
    `(key, v)` is stored: what `insert` stored can be found, and nothing
    else can.
  */
  lemma SearchFinds<V>(t: Tree<V>, key: Key, v: V)
    requires SearchTree(t)
    ensures Search(t, key) == Some(v) <==> (key, v) in Entries(t.nodes)
  {
    var B :| Ordered(t, B);
    if Search(t, key) == Some(v) {
      EntriesHas(t.nodes, |t.nodes|, FindLeaf(t, key));
    }
    if (key, v) in Entries(t.nodes) {
      var n := EntriesFrom(t.nodes, |t.nodes|, (key, v));
      var nd := t.nodes[n];
      assert nd.isLeaf && |nd.values| == |nd.keys|;
      var j :| 0 <= j < |nd.keys| && Pairs(nd)[j] == (key, v);
      FindLeafOf(t, B, n, j);
      assert KeysIn(t, B, n);
      var i := FirstMatch(nd.keys, key);
      assert i == j by {
        if i < j {
          LessIrreflexive(key);
        }
      }
    }
  }
}

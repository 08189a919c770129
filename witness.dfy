/**
  A concrete run of `insert` on a tree of order 3: the keys "1" to "6" in
  increasing order, the value of each key being its number. With the room
  case of `insert_into_parent` as written, the fifth insertion leaves leaf 4
  listed as a child of node 5 while its parent link still names node 2; the
  sixth insertion then files key "5" and the new leaf under node 2, where no
  descent reaches them, and `search` misses a key the tree stores. With the
  parent link set in the room case, the same run keeps every link and the
  search succeeds.

  Arena indices: 0, 1, 3, 4 and 7 are leaves, created in that order; 2 is
  the first root, 5 the node split off it and 6 the second root.
*/
module Witness {
  import opened Options
  import opened Keys
  import opened BPlusNode
  import opened BPlusSpec

  const Empty: Tree<int> := Tree([Node(true, [], [], [], None, None, 0)], 0, 3)
  const T1: Tree<int> := Tree([Node(true, ["1"], [], [1], None, None, 0)], 0, 3)
  const T2: Tree<int> := Tree([Node(true, ["1", "2"], [], [1, 2], None, None, 0)], 0, 3)

  const Leaf0: Node<int> := Node(true, ["1"], [], [1], Some(2), Some(1), 0)
  const Leaf1: Node<int> := Node(true, ["2"], [], [2], Some(2), Some(3), 0)

  // third insertion: the root leaf splits and a root grows above it
  const S3: Tree<int> := Tree([Node(true, ["1"], [], [1], None, Some(1), 0), Node(true, ["2"], [], [2], None, None, 0)], 0, 3)
  const G3: Tree<int> := Tree([Leaf0, Node(true, ["2"], [], [2], Some(2), None, 0),
                               Node(false, ["2"], [0, 1], [], None, None, 1)], 2, 3)
  const T3: Tree<int> := Tree([Leaf0, Node(true, ["2", "3"], [], [2, 3], Some(2), None, 0),
                               Node(false, ["2"], [0, 1], [], None, None, 1)], 2, 3)

  // fourth insertion: leaf 1 splits, the root has room
  const S4: Tree<int> := Tree([Leaf0, Leaf1, Node(false, ["2"], [0, 1], [], None, None, 1),
                               Node(true, ["3"], [], [3], Some(2), None, 0)], 2, 3)
  const P4: Tree<int> := Tree([Leaf0, Leaf1, Node(false, ["2", "3"], [0, 1, 3], [], None, None, 1),
                               Node(true, ["3"], [], [3], Some(2), None, 0)], 2, 3)
  const T4: Tree<int> := Tree([Leaf0, Leaf1, Node(false, ["2", "3"], [0, 1, 3], [], None, None, 1),
                               Node(true, ["3", "4"], [], [3, 4], Some(2), None, 0)], 2, 3)

  lemma CreateOrder3()
    ensures CreateBPlusTree<int>(3) == Some(Empty)
  {
  }

  lemma Insert1(rev: Revision)
    requires WellFormed(Empty)
    ensures Insert(Empty, "1", 1, rev) == T1
  {
    assert FindLeaf(Empty, "1") == 0;
    assert |Empty.nodes[0].keys| < Empty.order - 1;
    assert InsertPos([], "1") == 0;
    assert InsertIntoNodeNoSplit(Empty.nodes[0], "1", Value(1)) == T1.nodes[0];
    assert InsertIntoLeaf(Empty, 0, "1", 1) == T1;
  }

  lemma Insert2(rev: Revision)
    requires WellFormed(T1)
    ensures Insert(T1, "2", 2, rev) == T2
  {
    assert FindLeaf(T1, "2") == 0;
    assert InsertPos(["1"], "2") == 1;
    var nd := T1.nodes[0];
    assert nd.keys[..1] + ["2"] + nd.keys[1..] == ["1", "2"];
    assert nd.values[..1] + [2] + nd.values[1..] == [1, 2];
    assert InsertIntoNodeNoSplit(nd, "2", Value(2)) == T2.nodes[0];
  }

  lemma Split3()
    requires WellFormed(T2)
    ensures SplitLeafHalves(T2, 0) == S3
  {
    var nd := T2.nodes[0];
    assert nd.keys[..1] == ["1"] && nd.keys[1..] == ["2"];
    assert nd.values[..1] == [1] && nd.values[1..] == [2];
  }

  lemma Promote3(rev: Revision)
    requires Promoting(S3, 0, 1, 1)
    ensures InsertIntoParent(S3, 0, 1, "2", 1, rev) == G3
  {
    assert GrowRoot(S3, 0, 1, "2") == G3;
  }

  lemma SplitLeaf3(rev: Revision)
    requires WellFormed(T2)
    ensures SplitLeafNode(T2, 0, rev) == G3
  {
    Split3();
    Promote3(rev);
  }

  lemma IntoLeaf3()
    requires WellFormed(G3)
    ensures InsertIntoLeaf(G3, 1, "3", 3) == T3
  {
    assert InsertPos(["2"], "3") == 1;
    var nd := G3.nodes[1];
    assert nd.keys[..1] + ["3"] + nd.keys[1..] == ["2", "3"];
    assert nd.values[..1] + [3] + nd.values[1..] == [2, 3];
    assert InsertIntoNodeNoSplit(nd, "3", Value(3)) == T3.nodes[1];
  }

  lemma Insert3(rev: Revision)
    requires WellFormed(T2)
    ensures Insert(T2, "3", 3, rev) == T3
  {
    assert FindLeaf(T2, "3") == 0;
    SplitLeaf3(rev);
    IntoLeaf3();
  }

  lemma Split4()
    requires WellFormed(T3)
    ensures SplitLeafHalves(T3, 1) == S4
  {
    var nd := T3.nodes[1];
    assert nd.keys[..1] == ["2"] && nd.keys[1..] == ["3"];
    assert nd.values[..1] == [2] && nd.values[1..] == [3];
  }

  lemma Promote4(rev: Revision)
    requires Promoting(S4, 1, 3, 2)
    ensures InsertIntoParent(S4, 1, 3, "3", 2, rev) == P4
  {
    var nd := S4.nodes[2];
    assert InsertPos(["2"], "3") == 1;
    assert nd.keys[..1] + ["3"] + nd.keys[1..] == ["2", "3"];
    assert nd.children[..2] + [3] + nd.children[2..] == [0, 1, 3];
    assert InsertIntoNodeNoSplit(nd, "3", Child(3)) == P4.nodes[2];
    assert InsertIntoParentNode(S4, 2, 3, "3", rev) == P4;
  }

  lemma SplitLeaf4(rev: Revision)
    requires WellFormed(T3)
    ensures SplitLeafNode(T3, 1, rev) == P4
  {
    Split4();
    Promote4(rev);
  }

  lemma IntoLeaf4()
    requires WellFormed(P4)
    ensures InsertIntoLeaf(P4, 3, "4", 4) == T4
  {
    assert InsertPos(["3"], "4") == 1;
    var nd := P4.nodes[3];
    assert nd.keys[..1] + ["4"] + nd.keys[1..] == ["3", "4"];
    assert nd.values[..1] + [4] + nd.values[1..] == [3, 4];
    assert InsertIntoNodeNoSplit(nd, "4", Value(4)) == T4.nodes[3];
  }

  lemma Find4()
    requires WellFormed(T3)
    ensures FindLeaf(T3, "4") == 1
  {
    assert ChildIndex(["2"], "4") == 1;
  }

  lemma Insert4(rev: Revision)
    requires WellFormed(T3)
    ensures Insert(T3, "4", 4, rev) == T4
  {
    Find4();
    assert !Less("4", "3");
    SplitLeaf4(rev);
    IntoLeaf4();
  }

  // fifth insertion: leaf 3 splits, the full root splits, a new root grows,
  // and the retry files leaf 4 under node 5
  const Root2: Node<int> := Node(false, ["2", "3"], [0, 1, 3], [], None, None, 1)
  const S5: Tree<int> := Tree([Leaf0, Leaf1, Root2, Node(true, ["3"], [], [3], Some(2), Some(4), 0),
                               Node(true, ["4"], [], [4], Some(2), None, 0)], 2, 3)
  const H5: Tree<int> := Tree([Leaf0, Leaf1, Node(false, ["2"], [0, 1], [], None, None, 1),
                               Node(true, ["3"], [], [3], Some(5), Some(4), 0),
                               Node(true, ["4"], [], [4], Some(2), None, 0),
                               Node(false, [], [3], [], None, None, 1)], 2, 3)
  const Node2: Node<int> := Node(false, ["2"], [0, 1], [], Some(6), None, 1)
  const Leaf3: Node<int> := Node(true, ["3"], [], [3], Some(5), Some(4), 0)
  const Root6: Node<int> := Node(false, ["3"], [2, 5], [], None, None, 2)
  const G5: Tree<int> := Tree([Leaf0, Leaf1, Node2, Leaf3, Node(true, ["4"], [], [4], Some(2), None, 0),
                               Node(false, [], [3], [], Some(6), None, 1), Root6], 6, 3)
  const Node5: Node<int> := Node(false, ["4"], [3, 4], [], Some(6), None, 1)

  /** As written, leaf 4 keeps the parent link it copied from leaf 3 before node 2 was split. */
  const R5W: Tree<int> := Tree([Leaf0, Leaf1, Node2, Leaf3, Node(true, ["4"], [], [4], Some(2), None, 0), Node5, Root6], 6, 3)
  const T5W: Tree<int> := Tree([Leaf0, Leaf1, Node2, Leaf3, Node(true, ["4", "5"], [], [4, 5], Some(2), None, 0), Node5, Root6], 6, 3)
  const R5C: Tree<int> := Tree([Leaf0, Leaf1, Node2, Leaf3, Node(true, ["4"], [], [4], Some(5), None, 0), Node5, Root6], 6, 3)
  const T5C: Tree<int> := Tree([Leaf0, Leaf1, Node2, Leaf3, Node(true, ["4", "5"], [], [4, 5], Some(5), None, 0), Node5, Root6], 6, 3)

  lemma Split5()
    requires WellFormed(T4)
    ensures SplitLeafHalves(T4, 3) == S5
  {
    var nd := T4.nodes[3];
    assert nd.keys[..1] == ["3"] && nd.keys[1..] == ["4"];
    assert nd.values[..1] == [3] && nd.values[1..] == [4];
  }

  /** The arena `SplitInternalHalves(S5, 2)` builds, written out. */
  lemma Halves5Nodes()
    ensures Reparent(S5.nodes[2 := Node(false, ["2"], [0, 1], [], None, None, 1)]
                     + [Node(false, [], [3], [], None, None, 1)], [3], 5) == H5.nodes
  {
    var xs := S5.nodes[2 := Node(false, ["2"], [0, 1], [], None, None, 1)] + [Node(false, [], [3], [], None, None, 1)];
    var rs := Reparent(xs, [3], 5);
    assert forall n :: 0 <= n < |xs| && n != 3 ==> rs[n] == xs[n];
    assert rs[3] == xs[3].(parent := Some(5));
  }

  lemma Halves5()
    requires WellFormed(S5)
    ensures SplitInternalHalves(S5, 2) == H5
  {
    var nd := S5.nodes[2];
    assert nd.keys[..1] == ["2"] && nd.keys[2..] == [];
    assert nd.children[..2] == [0, 1] && nd.children[2..] == [3];
    Halves5Nodes();
  }

  lemma Grow5()
    requires WellFormedExcept(H5, 5) && Unlinked(H5, 5)
    ensures GrowRoot(H5, 2, 5, "3") == G5
  {
    var r := GrowRoot(H5, 2, 5, "3");
    assert r.nodes[2] == Node2 && r.nodes[5] == G5.nodes[5] && r.nodes[6] == Root6;
    assert forall n :: 0 <= n < 7 ==> r.nodes[n] == G5.nodes[n];
    assert r.nodes == G5.nodes;
  }

  lemma PromoteRoot5(rev: Revision)
    requires Promoting(H5, 2, 5, 2)
    ensures InsertIntoParent(H5, 2, 5, "3", 2, rev) == G5
  {
    Grow5();
  }

  lemma SplitRoot5(rev: Revision)
    requires WellFormed(S5)
    ensures SplitInternalNode(S5, 2, 2, rev) == G5
  {
    Halves5();
    PromoteRoot5(rev);
  }

  lemma Ready5(rev: Revision)
    requires Promoting(S5, 3, 4, 2)
    ensures WellFormed(S5) && SplitInternalNode(S5, 2, 2, rev) == G5 && Promoting(G5, 3, 4, 2)
  {
    SplitRoot5(rev);
    RetryReady(S5, 3, 4, 2, 2, G5);
  }

  lemma Retry5(rev: Revision)
    requires Promoting(G5, 3, 4, 2)
    ensures InsertIntoParent(G5, 3, 4, "4", 2, rev) == if rev == Corrected then R5C else R5W
  {
    Room5(rev);
  }

  lemma Room5(rev: Revision)
    requires Promoting(G5, 3, 4, 2)
    ensures InsertIntoParentNode(G5, 5, 4, "4", rev) == if rev == Corrected then R5C else R5W
  {
    var nd := G5.nodes[5];
    assert InsertPos([], "4") == 0;
    assert nd.children[..1] + [4] + nd.children[1..] == [3, 4];
    assert InsertIntoNodeNoSplit(nd, "4", Child(4)) == Node5;
  }

  lemma Promote5(rev: Revision)
    requires Promoting(S5, 3, 4, 2)
    ensures InsertIntoParent(S5, 3, 4, "4", 2, rev) == if rev == Corrected then R5C else R5W
  {
    Ready5(rev);
    Retry5(rev);
  }

  lemma SplitLeaf5(rev: Revision)
    requires WellFormed(T4)
    ensures SplitLeafNode(T4, 3, rev) == if rev == Corrected then R5C else R5W
  {
    Split5();
    Promote5(rev);
  }

  lemma Find5()
    requires WellFormed(T4)
    ensures FindLeaf(T4, "5") == 3
  {
    assert ChildIndex(["2", "3"], "5") == 2;
  }

  lemma IntoLeaf5(rev: Revision)
    requires WellFormed(if rev == Corrected then R5C else R5W)
    ensures var r := if rev == Corrected then R5C else R5W;
      InsertIntoLeaf(r, 4, "5", 5) == if rev == Corrected then T5C else T5W
  {
    var r := if rev == Corrected then R5C else R5W;
    var nd := r.nodes[4];
    assert InsertPos(["4"], "5") == 1;
    assert nd.keys[..1] + ["5"] + nd.keys[1..] == ["4", "5"];
    assert nd.values[..1] + [5] + nd.values[1..] == [4, 5];
  }

  lemma Insert5(rev: Revision)
    requires WellFormed(T4)
    ensures Insert(T4, "5", 5, rev) == if rev == Corrected then T5C else T5W
  {
    Find5();
    SplitLeaf5(rev);
    assert !Less("5", "4");
    IntoLeaf5(rev);
  }

  // sixth insertion: leaf 4 splits; as written the new leaf goes under node 2
  const S6W: Tree<int> := Tree([Leaf0, Leaf1, Node2, Leaf3, Node(true, ["4"], [], [4], Some(2), Some(7), 0), Node5, Root6,
                                Node(true, ["5"], [], [5], Some(2), None, 0)], 6, 3)
  const P6W: Tree<int> := Tree([Leaf0, Leaf1, Node(false, ["2", "5"], [0, 1, 7], [], Some(6), None, 1), Leaf3,
                                Node(true, ["4"], [], [4], Some(2), Some(7), 0), Node5, Root6,
                                Node(true, ["5"], [], [5], Some(2), None, 0)], 6, 3)
  const T6W: Tree<int> := Tree([Leaf0, Leaf1, Node(false, ["2", "5"], [0, 1, 7], [], Some(6), None, 1), Leaf3,
                                Node(true, ["4"], [], [4], Some(2), Some(7), 0), Node5, Root6,
                                Node(true, ["5", "6"], [], [5, 6], Some(2), None, 0)], 6, 3)
  const S6C: Tree<int> := Tree([Leaf0, Leaf1, Node2, Leaf3, Node(true, ["4"], [], [4], Some(5), Some(7), 0), Node5, Root6,
                                Node(true, ["5"], [], [5], Some(5), None, 0)], 6, 3)
  const P6C: Tree<int> := Tree([Leaf0, Leaf1, Node2, Leaf3, Node(true, ["4"], [], [4], Some(5), Some(7), 0),
                                Node(false, ["4", "5"], [3, 4, 7], [], Some(6), None, 1), Root6,
                                Node(true, ["5"], [], [5], Some(5), None, 0)], 6, 3)
  const T6C: Tree<int> := Tree([Leaf0, Leaf1, Node2, Leaf3, Node(true, ["4"], [], [4], Some(5), Some(7), 0),
                                Node(false, ["4", "5"], [3, 4, 7], [], Some(6), None, 1), Root6,
                                Node(true, ["5", "6"], [], [5, 6], Some(5), None, 0)], 6, 3)

  lemma WellFormed5()
    ensures WellFormed(T5W) && WellFormed(T5C)
  {
    RunToFour(AsWritten);
    Insert5(AsWritten);
    Insert5(Corrected);
  }

  lemma Descend6W()
    ensures WellFormed(T5W) && Descend(T5W, 5, "6") == 4
  {
    WellFormed5();
    assert ChildIndex(["4"], "6") == 1;
  }

  lemma Find6W()
    ensures WellFormed(T5W) && FindLeaf(T5W, "6") == 4
  {
    Descend6W();
    assert ChildIndex(["3"], "6") == 1;
  }

  lemma Descend6C()
    ensures WellFormed(T5C) && Descend(T5C, 5, "6") == 4
  {
    WellFormed5();
    assert ChildIndex(["4"], "6") == 1;
  }

  lemma Find6C()
    ensures WellFormed(T5C) && FindLeaf(T5C, "6") == 4
  {
    Descend6C();
    assert ChildIndex(["3"], "6") == 1;
  }

  lemma Split6W()
    requires WellFormed(T5W)
    ensures SplitLeafHalves(T5W, 4) == S6W
  {
    var nd := T5W.nodes[4];
    assert nd.keys[..1] == ["4"] && nd.keys[1..] == ["5"];
    assert nd.values[..1] == [4] && nd.values[1..] == [5];
  }

  lemma Split6C()
    requires WellFormed(T5C)
    ensures SplitLeafHalves(T5C, 4) == S6C
  {
    var nd := T5C.nodes[4];
    assert nd.keys[..1] == ["4"] && nd.keys[1..] == ["5"];
    assert nd.values[..1] == [4] && nd.values[1..] == [5];
  }

  lemma Room6W()
    requires WellFormedExcept(S6W, 7) && Unlinked(S6W, 7)
    ensures InsertIntoParentNode(S6W, 2, 7, "5", AsWritten) == P6W
  {
    var nd := S6W.nodes[2];
    assert InsertPos(["2"], "5") == 1;
    assert nd.keys[..1] + ["5"] + nd.keys[1..] == ["2", "5"];
    assert nd.children[..2] + [7] + nd.children[2..] == [0, 1, 7];
    assert InsertIntoNodeNoSplit(nd, "5", Child(7)) == P6W.nodes[2];
  }

  lemma Room6C()
    requires WellFormedExcept(S6C, 7) && Unlinked(S6C, 7)
    ensures InsertIntoParentNode(S6C, 5, 7, "5", Corrected) == P6C
  {
    var nd := S6C.nodes[5];
    assert InsertPos(["4"], "5") == 1;
    assert nd.keys[..1] + ["5"] + nd.keys[1..] == ["4", "5"];
    assert nd.children[..2] + [7] + nd.children[2..] == [3, 4, 7];
    assert InsertIntoNodeNoSplit(nd, "5", Child(7)) == P6C.nodes[5];
  }

  lemma Promote6W()
    requires Promoting(S6W, 4, 7, 3)
    ensures InsertIntoParent(S6W, 4, 7, "5", 3, AsWritten) == P6W
  {
    Room6W();
  }

  lemma Promote6C()
    requires Promoting(S6C, 4, 7, 3)
    ensures InsertIntoParent(S6C, 4, 7, "5", 3, Corrected) == P6C
  {
    Room6C();
  }

  lemma SplitLeaf6W()
    requires WellFormed(T5W)
    ensures SplitLeafNode(T5W, 4, AsWritten) == P6W
  {
    Split6W();
    Promote6W();
  }

  lemma SplitLeaf6C()
    requires WellFormed(T5C)
    ensures SplitLeafNode(T5C, 4, Corrected) == P6C
  {
    Split6C();
    Promote6C();
  }

  lemma IntoLeaf6W()
    requires WellFormed(P6W)
    ensures InsertIntoLeaf(P6W, 7, "6", 6) == T6W
  {
    var nd := P6W.nodes[7];
    assert InsertPos(["5"], "6") == 1;
    assert nd.keys[..1] + ["6"] + nd.keys[1..] == ["5", "6"];
    assert nd.values[..1] + [6] + nd.values[1..] == [5, 6];
    assert InsertIntoNodeNoSplit(nd, "6", Value(6)) == T6W.nodes[7];
  }

  lemma IntoLeaf6C()
    requires WellFormed(P6C)
    ensures InsertIntoLeaf(P6C, 7, "6", 6) == T6C
  {
    var nd := P6C.nodes[7];
    assert InsertPos(["5"], "6") == 1;
    assert nd.keys[..1] + ["6"] + nd.keys[1..] == ["5", "6"];
    assert nd.values[..1] + [6] + nd.values[1..] == [5, 6];
    assert InsertIntoNodeNoSplit(nd, "6", Value(6)) == T6C.nodes[7];
  }

  lemma Insert6W()
    requires WellFormed(T5W)
    ensures Insert(T5W, "6", 6, AsWritten) == T6W
  {
    Find6W();
    SplitLeaf6W();
    assert P6W.nodes[4].next == Some(7) && P6W.nodes[7].keys[0] == "5";
    assert !Less("6", "5");
    IntoLeaf6W();
  }

  lemma Insert6C()
    requires WellFormed(T5C)
    ensures Insert(T5C, "6", 6, Corrected) == T6C
  {
    Find6C();
    SplitLeaf6C();
    assert !Less("6", "5");
    IntoLeaf6C();
  }

  // ---------------------------------------------------------------- the run

  /** `create_bplus_tree(3)` followed by `insert` of "1" to "5", each with its number as value. */
  function InsertOneToFive(rev: Revision): (r: Tree<int>)
    ensures WellFormed(r) && r.order == 3
    ensures rev == Corrected ==> Valid(r)
  {
    var t0 := CreateBPlusTree<int>(3).value;
    var t1 := Insert(t0, "1", 1, rev);
    var t2 := Insert(t1, "2", 2, rev);
    var t3 := Insert(t2, "3", 3, rev);
    var t4 := Insert(t3, "4", 4, rev);
    Insert(t4, "5", 5, rev)
  }

  /** The same run continued with "6", whose pair the tree then stores. */
  function InsertOneToSix(rev: Revision): (r: Tree<int>)
    ensures WellFormed(r) && ("6", 6) in Entries(r.nodes)
    ensures rev == Corrected ==> Valid(r)
  {
    Insert(InsertOneToFive(rev), "6", 6, rev)
  }

  lemma RunToFour(rev: Revision)
    ensures var t0 := CreateBPlusTree<int>(3).value;
      Insert(Insert(Insert(Insert(t0, "1", 1, rev), "2", 2, rev), "3", 3, rev), "4", 4, rev) == T4
  {
    CreateOrder3();
    Insert1(rev);
    Insert2(rev);
    Insert3(rev);
    Insert4(rev);
  }

  lemma RunToFiveW()
    ensures InsertOneToFive(AsWritten) == T5W
  {
    RunToFour(AsWritten);
    Insert5(AsWritten);
  }

  lemma RunToFiveC()
    ensures InsertOneToFive(Corrected) == T5C
  {
    RunToFour(Corrected);
    Insert5(Corrected);
  }

  lemma WellFormed6()
    ensures WellFormed(T6W) && WellFormed(T6C)
  {
    WellFormed5();
    Find6W();
    Insert6W();
    Find6C();
    Insert6C();
  }

  lemma Descend6InW()
    ensures WellFormed(T6W) && Descend(T6W, 5, "6") == 4
  {
    WellFormed6();
    assert ChildIndex(["4"], "6") == 1;
  }

  lemma SearchMisses()
    ensures WellFormed(T6W) && Search(T6W, "6") == None
  {
    Descend6InW();
    assert ChildIndex(["3"], "6") == 1;
    assert FindLeaf(T6W, "6") == 4;
  }

  lemma Descend6InC()
    ensures WellFormed(T6C) && Descend(T6C, 5, "6") == 7
  {
    WellFormed6();
    assert ChildIndex(["4", "5"], "6") == 2;
  }

  lemma SearchFinds()
    ensures WellFormed(T6C) && Search(T6C, "6") == Some(6)
  {
    Descend6InC();
    assert ChildIndex(["3"], "6") == 1;
    assert FindLeaf(T6C, "6") == 7;
  }

  lemma RunToSixW()
    ensures InsertOneToSix(AsWritten) == T6W
  {
    RunToFiveW();
    Find6W();
    Insert6W();
  }

  lemma RunToSixC()
    ensures InsertOneToSix(Corrected) == T6C
  {
    RunToFiveC();
    Find6C();
    Insert6C();
  }

  /** Node 5 lists leaf 4 second among its children, but leaf 4's parent link names node 2. */
  lemma StaleLinkInFive()
    ensures T5W.nodes[5].children[1] == 4 && T5W.nodes[4].parent == Some(2) && !BackLinks(T5W)
  {
    assert T5W.nodes[T5W.nodes[5].children[1]].parent != Some(5);
  }

  /**
    After five insertions as written, node 5 lists leaf 4 as its child while
    leaf 4's parent link names node 2; after the sixth, the tree holds the
    pair ("6", 6) and `search` for "6" returns nothing.
  */
  lemma StaleParentLink()
    ensures InsertOneToFive(AsWritten) == T5W
    ensures T5W.nodes[5].children[1] == 4 && T5W.nodes[4].parent == Some(2) && !BackLinks(T5W)
    ensures InsertOneToSix(AsWritten) == T6W
    ensures WellFormed(T6W) && ("6", 6) in Entries(T6W.nodes) && Search(T6W, "6") == None
  {
    RunToFiveW();
    StaleLinkInFive();
    RunToSixW();
    SearchMisses();
  }

  /** With the parent link set in the room case, the same run keeps every link exact and finds "6". */
  lemma ParentLinkKept()
    ensures InsertOneToFive(Corrected) == T5C && T5C.nodes[5].children[1] == 4 && T5C.nodes[4].parent == Some(5)
    ensures InsertOneToSix(Corrected) == T6C
    ensures Valid(T6C) && ("6", 6) in Entries(T6C.nodes) && Search(T6C, "6") == Some(6)
  {
    RunToFiveC();
    RunToSixC();
    SearchFinds();
  }
}

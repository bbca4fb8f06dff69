/**
 * The resolution tree: every node holds a sentential form, and a node's
 * children are the trees grown from its rewrites. Leaves are the nodes
 * without children, listed depth first from left to right.
 */
module Trees {
  import opened Symbols

  datatype Tree = Node(data: seq<Symbol>, children: seq<Tree>)

  /** s is t itself or lies somewhere below t. */
  ghost predicate Within(s: Tree, t: Tree)
    decreases t
  {
    s == t || exists i :: 0 <= i < |t.children| && Within(s, t.children[i])
  }

  /** The leaf nodes of t, depth first and left to right. */
  function Leaves(t: Tree): (r: seq<Tree>)
    ensures |r| >= 1
    ensures forall l :: l in r ==> l.children == []
    decreases t, 1
  {
    if t.children == [] then [t]
    else
      assert t.children[0] in t.children;
      LeavesOf(t.children)
  }

  /** The leaf nodes of the trees of ts, one tree after the other. */
  function LeavesOf(ts: seq<Tree>): (r: seq<Tree>)
    ensures ts != [] ==> |r| >= 1
    ensures forall l :: l in r ==> l.children == []
    decreases ts, 0
  {
    if ts == [] then [] else Leaves(ts[0]) + LeavesOf(ts[1..])
  }

  /** A leaf of a forest is a leaf of one of its trees. */
  lemma {:induction false} LeavesOfMember(ts: seq<Tree>, l: Tree)
    ensures l in LeavesOf(ts) <==> exists i :: 0 <= i < |ts| && l in Leaves(ts[i])
    decreases |ts|
  {
    if ts != [] {
      LeavesOfMember(ts[1..], l);
      if exists i :: 0 <= i < |ts| && l in Leaves(ts[i]) {
        var i :| 0 <= i < |ts| && l in Leaves(ts[i]);
        if i > 0 {
          assert l in Leaves(ts[1..][i - 1]);
        }
      }
      if exists i :: 0 <= i < |ts[1..]| && l in Leaves(ts[1..][i]) {
        var i :| 0 <= i < |ts[1..]| && l in Leaves(ts[1..][i]);
        assert l in Leaves(ts[i + 1]);
      }
    }
  }

  /** The leaves are exactly the childless nodes of the tree. */
  lemma {:induction false} LeavesExactly(t: Tree, l: Tree)
    ensures l in Leaves(t) <==> l.children == [] && Within(l, t)
    decreases t
  {
    if t.children != [] {
      LeavesOfMember(t.children, l);
      forall i | 0 <= i < |t.children| ensures l in Leaves(t.children[i]) <==> l.children == [] && Within(l, t.children[i]) {
        LeavesExactly(t.children[i], l);
      }
      assert l != t ==> (Within(l, t) <==> exists i :: 0 <= i < |t.children| && Within(l, t.children[i]));
    }
  }

  /** The set of leaf forms, as a caller collects them from the leaves. */
  function LeafFormSet(t: Tree): (r: set<seq<Symbol>>)
    ensures t.children == [] ==> r == {t.data}
    ensures r != {}
  {
    var ls := Leaves(t);
    var r := set l | l in ls :: l.data;
    assert ls[0] in ls && ls[0].data in r;
    r
  }

  /** An inner node's leaf forms are those of its children together. */
  lemma LeafFormSetOfNode(t: Tree, h: seq<Symbol>)
    requires t.children != []
    ensures h in LeafFormSet(t) <==> exists i :: 0 <= i < |t.children| && h in LeafFormSet(t.children[i])
  {
    if h in LeafFormSet(t) {
      var l :| l in Leaves(t) && l.data == h;
      LeavesOfMember(t.children, l);
      var i :| 0 <= i < |t.children| && l in Leaves(t.children[i]);
      assert h in LeafFormSet(t.children[i]);
    }
    if exists i :: 0 <= i < |t.children| && h in LeafFormSet(t.children[i]) {
      var i :| 0 <= i < |t.children| && h in LeafFormSet(t.children[i]);
      var l :| l in Leaves(t.children[i]) && l.data == h;
      LeavesOfMember(t.children, l);
      assert l in Leaves(t);
    }
  }
}

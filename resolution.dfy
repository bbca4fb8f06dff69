/**
 * Resolution: growing the tree of all rewrites of a start symbol, layer by
 * layer, up to a depth limit; and what its leaves are in terms of the
 * grammar's derivation relation.
 */
module Resolution {
  import opened Symbols
  import opened Grammars
  import opened Trees

  // ---------------------------------------------------------------------
  // One rewriting step

  /** f with its symbol at position i replaced by the right side of x. */
  function Replace(f: seq<Symbol>, i: nat, x: Rule): seq<Symbol>
    requires i < |f|
  {
    f[..i] + x.right + f[i + 1..]
  }

  /** The rewrites of f at its first position, one per matching rule. */
  function HeadRewrites(g: Grammar, f: seq<Symbol>): seq<seq<Symbol>>
    requires f != []
  {
    var rs := RulesFor(g, f[0]);
    seq(|rs|, k requires 0 <= k < |rs| => Replace(f, 0, rs[k]))
  }

  /** Each form of forms with s put in front. */
  function Prefixed(s: Symbol, forms: seq<seq<Symbol>>): seq<seq<Symbol>> {
    seq(|forms|, k requires 0 <= k < |forms| => [s] + forms[k])
  }

  /** How many pairs of a position of f and a rule for the symbol there
      the grammar has. */
  function MatchCount(g: Grammar, f: seq<Symbol>): nat
    decreases |f|
  {
    if f == [] then 0 else |RulesFor(g, f[0])| + MatchCount(g, f[1..])
  }

  /** All one-step rewrites of the sentential form f: position by position
      from the left, and at each non-terminal position one rewrite per
      matching rule, in rule order. */
  function Rewrites(g: Grammar, f: seq<Symbol>): (r: seq<seq<Symbol>>)
    ensures |r| == MatchCount(g, f)
    decreases |f|
  {
    if f == [] then [] else HeadRewrites(g, f) + Prefixed(f[0], Rewrites(g, f[1..]))
  }

  /** The textbook one-step derivation relation: c replaces one occurrence
      of some rule's left side in f by that rule's right side. */
  ghost predicate IsRewrite(g: Grammar, f: seq<Symbol>, c: seq<Symbol>) {
    exists i: nat, x :: i < |f| && x in g.rules && x.left == f[i] && c == Replace(f, i, x)
  }

  /** Some rule rewrites s. */
  ghost predicate HasRule(g: Grammar, s: Symbol) {
    exists x :: x in g.rules && x.left == s
  }

  /** No symbol of h can be rewritten: h holds only terminals and
      non-terminals that are the left side of no rule. */
  ghost predicate Irreducible(g: Grammar, h: seq<Symbol>) {
    forall i :: 0 <= i < |h| ==> !HasRule(g, h[i])
  }

  lemma ReplaceShift(f: seq<Symbol>, i: nat, x: Rule)
    requires 1 <= i < |f|
    ensures Replace(f, i, x) == [f[0]] + Replace(f[1..], i - 1, x)
  {
    assert f[..i] == [f[0]] + f[1..][..i - 1];
    assert f[i + 1..] == f[1..][i..];
  }

  /** Every one-step derivation is listed by Rewrites. */
  lemma {:induction false} RewriteListed(g: Grammar, f: seq<Symbol>, i: nat, x: Rule)
    requires i < |f| && x in g.rules && x.left == f[i]
    ensures Replace(f, i, x) in Rewrites(g, f)
    decreases i
  {
    assert Rewrites(g, f) == HeadRewrites(g, f) + Prefixed(f[0], Rewrites(g, f[1..]));
    if i == 0 {
      var rs := RulesFor(g, f[0]);
      assert x in rs;
      var k :| 0 <= k < |rs| && rs[k] == x;
      assert HeadRewrites(g, f)[k] == Replace(f, 0, x);
    } else {
      RewriteListed(g, f[1..], i - 1, x);
      var later := Rewrites(g, f[1..]);
      var k :| 0 <= k < |later| && later[k] == Replace(f[1..], i - 1, x);
      ReplaceShift(f, i, x);
      assert Prefixed(f[0], later)[k] == Replace(f, i, x);
    }
  }

  /** Everything Rewrites lists is a one-step derivation. */
  lemma {:induction false} ListedIsRewrite(g: Grammar, f: seq<Symbol>, c: seq<Symbol>)
    requires c in Rewrites(g, f)
    ensures IsRewrite(g, f, c)
    decreases |f|
  {
    assert Rewrites(g, f) == HeadRewrites(g, f) + Prefixed(f[0], Rewrites(g, f[1..]));
    if c in HeadRewrites(g, f) {
      var rs := RulesFor(g, f[0]);
      var k :| 0 <= k < |rs| && c == HeadRewrites(g, f)[k];
      assert rs[k] in rs;
      assert c == Replace(f, 0, rs[k]);
    } else {
      var later := Rewrites(g, f[1..]);
      var k :| 0 <= k < |later| && c == Prefixed(f[0], later)[k];
      ListedIsRewrite(g, f[1..], later[k]);
      var i: nat, x :| i < |f[1..]| && x in g.rules && x.left == f[1..][i] && later[k] == Replace(f[1..], i, x);
      ReplaceShift(f, i + 1, x);
      assert c == Replace(f, i + 1, x);
    }
  }

  /** Rewrites lists exactly the one-step derivations. */
  lemma RewritesExactly(g: Grammar, f: seq<Symbol>, c: seq<Symbol>)
    ensures c in Rewrites(g, f) <==> IsRewrite(g, f, c)
  {
    if c in Rewrites(g, f) {
      ListedIsRewrite(g, f, c);
    }
    if IsRewrite(g, f, c) {
      var i: nat, x :| i < |f| && x in g.rules && x.left == f[i] && c == Replace(f, i, x);
      RewriteListed(g, f, i, x);
    }
  }

  /** A form has no rewrite exactly when it is irreducible. */
  lemma NoRewritesIffIrreducible(g: Grammar, h: seq<Symbol>)
    ensures Rewrites(g, h) == [] <==> Irreducible(g, h)
  {
    if Rewrites(g, h) != [] {
      var c := Rewrites(g, h)[0];
      ListedIsRewrite(g, h, c);
      var i: nat, x :| i < |h| && x in g.rules && x.left == h[i] && c == Replace(h, i, x);
      assert HasRule(g, h[i]);
    }
    if !Irreducible(g, h) {
      var i :| 0 <= i < |h| && HasRule(g, h[i]);
      var x :| x in g.rules && x.left == h[i];
      RewriteListed(g, h, i, x);
    }
  }

  // ---------------------------------------------------------------------
  // Derivations

  /** h is derived from f in exactly n rewriting steps. */
  ghost predicate DerivesIn(g: Grammar, f: seq<Symbol>, h: seq<Symbol>, n: nat)
    decreases n
  {
    if n == 0 then f == h
    else exists c :: IsRewrite(g, f, c) && DerivesIn(g, c, h, n - 1)
  }

  /** A derivation of a + b steps passes through a form after a steps. */
  lemma {:induction false} DerivesInSplit(g: Grammar, f: seq<Symbol>, h: seq<Symbol>, a: nat, b: nat)
    requires DerivesIn(g, f, h, a + b)
    ensures exists mid :: DerivesIn(g, f, mid, a) && DerivesIn(g, mid, h, b)
    decreases a
  {
    if a == 0 {
      assert DerivesIn(g, f, f, 0);
    } else {
      var c :| IsRewrite(g, f, c) && DerivesIn(g, c, h, a - 1 + b);
      DerivesInSplit(g, c, h, a - 1, b);
      var mid :| DerivesIn(g, c, mid, a - 1) && DerivesIn(g, mid, h, b);
      assert DerivesIn(g, f, mid, a);
    }
  }

  /** A form that still derives something in one or more steps is not
      irreducible. */
  lemma DerivesOnwardReducible(g: Grammar, f: seq<Symbol>, h: seq<Symbol>, n: nat)
    requires n > 0 && DerivesIn(g, f, h, n)
    ensures !Irreducible(g, f)
  {
    var c :| IsRewrite(g, f, c) && DerivesIn(g, c, h, n - 1);
    RewritesExactly(g, f, c);
    NoRewritesIffIrreducible(g, f);
  }

  // ---------------------------------------------------------------------
  // The resolution tree

  /** The tree of all rewrites of f, grown for at most `limit` layers: a node
      is expanded only while fewer than `limit` rewriting steps separate it
      from the root, and a node with no rewrite stays a leaf. */
  function Expand(g: Grammar, f: seq<Symbol>, limit: nat): (t: Tree)
    ensures t.data == f
    ensures limit == 0 ==> t.children == []
    decreases limit, 0
  {
    if limit == 0 then Node(f, []) else Node(f, ExpandAll(g, Rewrites(g, f), limit - 1))
  }

  /** The trees grown from each of the forms fs. */
  function ExpandAll(g: Grammar, fs: seq<seq<Symbol>>, limit: nat): (ts: seq<Tree>)
    ensures |ts| == |fs|
    decreases limit, 1, |fs|
  {
    if fs == [] then [] else [Expand(g, fs[0], limit)] + ExpandAll(g, fs[1..], limit)
  }

  lemma {:induction false} ExpandAllAt(g: Grammar, fs: seq<seq<Symbol>>, limit: nat, i: nat)
    requires i < |fs|
    ensures ExpandAll(g, fs, limit)[i] == Expand(g, fs[i], limit)
    decreases i
  {
    if i > 0 {
      ExpandAllAt(g, fs[1..], limit, i - 1);
    }
  }

  /** The resolution of a start symbol: its tree has the one-symbol form
      [start] at the root. */
  function Resolve(g: Grammar, start: Symbol, limit: nat): (t: Tree)
    ensures t.data == [start]
  {
    Expand(g, [start], limit)
  }

  /** An irreducible form is resolved to a single leaf, whatever the limit. */
  lemma IrreducibleIsLeaf(g: Grammar, f: seq<Symbol>, limit: nat)
    requires Irreducible(g, f)
    ensures Expand(g, f, limit) == Node(f, [])
  {
    NoRewritesIffIrreducible(g, f);
  }

  /** The children of an expanded node are the trees of its rewrites. */
  lemma ExpandChildren(g: Grammar, f: seq<Symbol>, k: nat)
    requires k > 0
    ensures |Expand(g, f, k).children| == |Rewrites(g, f)|
    ensures forall i :: 0 <= i < |Rewrites(g, f)| ==>
      Expand(g, f, k).children[i] == Expand(g, Rewrites(g, f)[i], k - 1)
  {
    forall i | 0 <= i < |Rewrites(g, f)|
      ensures Expand(g, f, k).children[i] == Expand(g, Rewrites(g, f)[i], k - 1)
    {
      ExpandAllAt(g, Rewrites(g, f), k - 1, i);
    }
  }

  /** A derivation of n > 0 steps starts with one of the listed rewrites. */
  lemma DerivesFirstStep(g: Grammar, f: seq<Symbol>, h: seq<Symbol>, n: nat)
    requires n > 0
    ensures DerivesIn(g, f, h, n) <==>
      exists i :: 0 <= i < |Rewrites(g, f)| && DerivesIn(g, Rewrites(g, f)[i], h, n - 1)
  {
    var rw := Rewrites(g, f);
    if DerivesIn(g, f, h, n) {
      var c :| IsRewrite(g, f, c) && DerivesIn(g, c, h, n - 1);
      RewritesExactly(g, f, c);
      var i :| 0 <= i < |rw| && rw[i] == c;
      assert DerivesIn(g, rw[i], h, n - 1);
    }
    if exists i :: 0 <= i < |rw| && DerivesIn(g, rw[i], h, n - 1) {
      var i :| 0 <= i < |rw| && DerivesIn(g, rw[i], h, n - 1);
      RewritesExactly(g, f, rw[i]);
      assert IsRewrite(g, f, rw[i]);
    }
  }

  /** What the leaf forms of a limit-k tree are, in terms of derivations. */
  ghost predicate LeafFormOf(g: Grammar, f: seq<Symbol>, h: seq<Symbol>, k: nat) {
    DerivesIn(g, f, h, k) || (Irreducible(g, h) && exists n: nat :: n < k && DerivesIn(g, f, h, n))
  }

  /** A leaf form of a reducible form is a leaf form of one of its rewrites. */
  lemma LeafFormOfStepDown(g: Grammar, f: seq<Symbol>, h: seq<Symbol>, k: nat)
    requires k > 0 && Rewrites(g, f) != [] && LeafFormOf(g, f, h, k)
    ensures exists i :: 0 <= i < |Rewrites(g, f)| && LeafFormOf(g, Rewrites(g, f)[i], h, k - 1)
  {
    var rw := Rewrites(g, f);
    if DerivesIn(g, f, h, k) {
      DerivesFirstStep(g, f, h, k);
      var i :| 0 <= i < |rw| && DerivesIn(g, rw[i], h, k - 1);
      assert LeafFormOf(g, rw[i], h, k - 1);
    } else {
      var n: nat :| n < k && DerivesIn(g, f, h, n);
      assert n != 0 by {
        NoRewritesIffIrreducible(g, f);
      }
      DerivesFirstStep(g, f, h, n);
      var i :| 0 <= i < |rw| && DerivesIn(g, rw[i], h, n - 1);
      assert LeafFormOf(g, rw[i], h, k - 1);
    }
  }

  /** A leaf form of a rewrite is a leaf form of the form it came from. */
  lemma LeafFormOfStepUp(g: Grammar, f: seq<Symbol>, h: seq<Symbol>, k: nat, i: nat)
    requires k > 0 && i < |Rewrites(g, f)| && LeafFormOf(g, Rewrites(g, f)[i], h, k - 1)
    ensures LeafFormOf(g, f, h, k)
  {
    var rw := Rewrites(g, f);
    if DerivesIn(g, rw[i], h, k - 1) {
      DerivesFirstStep(g, f, h, k);
    } else {
      var n: nat :| n < k - 1 && DerivesIn(g, rw[i], h, n);
      DerivesFirstStep(g, f, h, n + 1);
      assert n + 1 < k && DerivesIn(g, f, h, n + 1);
    }
  }

  /** From a reducible form, LeafFormOf goes through the first step. */
  lemma LeafFormOfStep(g: Grammar, f: seq<Symbol>, h: seq<Symbol>, k: nat)
    requires k > 0 && Rewrites(g, f) != []
    ensures LeafFormOf(g, f, h, k) <==>
      exists i :: 0 <= i < |Rewrites(g, f)| && LeafFormOf(g, Rewrites(g, f)[i], h, k - 1)
  {
    if LeafFormOf(g, f, h, k) {
      LeafFormOfStepDown(g, f, h, k);
    }
    if exists i :: 0 <= i < |Rewrites(g, f)| && LeafFormOf(g, Rewrites(g, f)[i], h, k - 1) {
      var i :| 0 <= i < |Rewrites(g, f)| && LeafFormOf(g, Rewrites(g, f)[i], h, k - 1);
      LeafFormOfStepUp(g, f, h, k, i);
    }
  }

  /** From an irreducible form, only the form itself is a leaf form. */
  lemma LeafFormOfIrreducible(g: Grammar, f: seq<Symbol>, h: seq<Symbol>, k: nat)
    requires k > 0 && Rewrites(g, f) == []
    ensures LeafFormOf(g, f, h, k) <==> h == f
  {
    NoRewritesIffIrreducible(g, f);
    forall n: nat | 0 < n ensures !DerivesIn(g, f, h, n) {
      DerivesFirstStep(g, f, h, n);
    }
    assert DerivesIn(g, f, f, 0);
  }

  /** A leaf-only tree: its one leaf form is its own form. */
  lemma LeafFormsOfStuckNode(g: Grammar, f: seq<Symbol>, h: seq<Symbol>, k: nat)
    requires k == 0 || Rewrites(g, f) == []
    ensures h in LeafFormSet(Expand(g, f, k)) <==> LeafFormOf(g, f, h, k)
  {
    var t := Expand(g, f, k);
    if k > 0 {
      ExpandChildren(g, f, k);
      LeafFormOfIrreducible(g, f, h, k);
    }
    assert t.children == [];
    assert LeafFormSet(t) == {f};
  }

  /** An expanded node's leaf forms follow from those of its children. */
  lemma LeafFormsOfExpandedNode(g: Grammar, f: seq<Symbol>, h: seq<Symbol>, k: nat)
    requires k > 0 && Rewrites(g, f) != []
    requires forall i :: 0 <= i < |Rewrites(g, f)| ==>
      (h in LeafFormSet(Expand(g, Rewrites(g, f)[i], k - 1)) <==> LeafFormOf(g, Rewrites(g, f)[i], h, k - 1))
    ensures h in LeafFormSet(Expand(g, f, k)) <==> LeafFormOf(g, f, h, k)
  {
    var t := Expand(g, f, k);
    ExpandChildren(g, f, k);
    LeafFormSetOfNode(t, h);
    LeafFormOfStep(g, f, h, k);
  }

  /** The leaf forms of the tree grown from f with limit k are the forms
      derived from f in exactly k steps (the depth limit stops them), and the
      irreducible forms derived in fewer (no rule applies to them). */
  lemma {:induction false} ExpandLeafForms(g: Grammar, f: seq<Symbol>, h: seq<Symbol>, k: nat)
    ensures h in LeafFormSet(Expand(g, f, k)) <==> LeafFormOf(g, f, h, k)
    decreases k
  {
    var rw := Rewrites(g, f);
    if k == 0 || rw == [] {
      LeafFormsOfStuckNode(g, f, h, k);
    } else {
      forall i | 0 <= i < |rw|
        ensures h in LeafFormSet(Expand(g, rw[i], k - 1)) <==> LeafFormOf(g, rw[i], h, k - 1)
      {
        ExpandLeafForms(g, rw[i], h, k - 1);
      }
      LeafFormsOfExpandedNode(g, f, h, k);
    }
  }

  /** Every leaf form of t is irreducible: growing one more layer would add
      nothing, which is when resolution without a limit stops. */
  ghost predicate Complete(g: Grammar, t: Tree) {
    forall h :: h in LeafFormSet(t) ==> Irreducible(g, h)
  }

  /** Every subtree of a complete tree is complete. */
  lemma CompleteChild(g: Grammar, t: Tree, i: nat)
    requires Complete(g, t) && i < |t.children|
    ensures Complete(g, t.children[i])
  {
    forall h | h in LeafFormSet(t.children[i]) ensures Irreducible(g, h) {
      LeafFormSetOfNode(t, h);
    }
  }

  /** A complete tree of a single node stays so with one more layer. */
  lemma CompleteAtRoot(g: Grammar, f: seq<Symbol>)
    requires Complete(g, Expand(g, f, 0))
    ensures Expand(g, f, 1) == Expand(g, f, 0)
  {
    assert f in LeafFormSet(Expand(g, f, 0));
    NoRewritesIffIrreducible(g, f);
    assert Expand(g, f, 1).children == ExpandAll(g, [], 0) == [];
  }

  /** A tree is unchanged by one more layer when each of its subtrees is. */
  lemma StableStep(g: Grammar, f: seq<Symbol>, k: nat)
    requires k > 0
    requires forall i :: 0 <= i < |Rewrites(g, f)| ==>
      Expand(g, Rewrites(g, f)[i], k) == Expand(g, Rewrites(g, f)[i], k - 1)
    ensures Expand(g, f, k + 1) == Expand(g, f, k)
  {
    ExpandChildren(g, f, k);
    ExpandChildren(g, f, k + 1);
    assert Expand(g, f, k + 1).children == Expand(g, f, k).children;
  }

  /** Once the tree is complete, one more layer leaves it unchanged. */
  lemma {:induction false} CompleteIsStable(g: Grammar, f: seq<Symbol>, k: nat)
    requires Complete(g, Expand(g, f, k))
    ensures Expand(g, f, k + 1) == Expand(g, f, k)
    decreases k
  {
    if k == 0 {
      CompleteAtRoot(g, f);
    } else {
      var rw := Rewrites(g, f);
      var t := Expand(g, f, k);
      ExpandChildren(g, f, k);
      forall i | 0 <= i < |rw| ensures Expand(g, rw[i], k) == Expand(g, rw[i], k - 1) {
        CompleteChild(g, t, i);
        CompleteIsStable(g, rw[i], k - 1);
      }
      StableStep(g, f, k);
    }
  }

  /** Hence every limit at or beyond completion gives the same tree: the
      result of resolving without a limit. */
  lemma {:induction false} CompleteIsFinal(g: Grammar, f: seq<Symbol>, k: nat, m: nat)
    requires Complete(g, Expand(g, f, k))
    requires k <= m
    ensures Expand(g, f, m) == Expand(g, f, k)
    decreases m - k
  {
    if k < m {
      var t := Expand(g, f, k);
      CompleteIsStable(g, f, k);
      assert Expand(g, f, k + 1) == t;
      assert Complete(g, Expand(g, f, k + 1));
      CompleteIsFinal(g, f, k + 1, m);
    }
  }

  /** A complete tree's leaf forms are exactly the irreducible forms
      derivable from its root: resolution without a limit is exhaustive. */
  lemma CompleteLeafForms(g: Grammar, f: seq<Symbol>, h: seq<Symbol>, k: nat)
    requires Complete(g, Expand(g, f, k))
    ensures h in LeafFormSet(Expand(g, f, k)) <==> Irreducible(g, h) && exists n: nat :: DerivesIn(g, f, h, n)
  {
    ExpandLeafForms(g, f, h, k);
    if h in LeafFormSet(Expand(g, f, k)) {
      assert Irreducible(g, h);
      if !DerivesIn(g, f, h, k) {
        var n: nat :| n < k && DerivesIn(g, f, h, n);
        assert DerivesIn(g, f, h, n);
      }
      assert exists n: nat :: DerivesIn(g, f, h, n);
    }
    if Irreducible(g, h) && exists n: nat :: DerivesIn(g, f, h, n) {
      var n: nat :| DerivesIn(g, f, h, n);
      assert n <= k by {
        if k < n {
          DerivesInSplit(g, f, h, k, n - k);
          var mid :| DerivesIn(g, f, mid, k) && DerivesIn(g, mid, h, n - k);
          ExpandLeafForms(g, f, mid, k);
          DerivesOnwardReducible(g, mid, h, n - k);
        }
      }
      assert LeafFormOf(g, f, h, k);
      assert h in LeafFormSet(Expand(g, f, k));
    }
  }

  /** The leaf forms of an expanded node are those of its rewrites' trees. */
  lemma ExpandLeafFormsUnion(g: Grammar, f: seq<Symbol>, k: nat, h: seq<Symbol>)
    requires k > 0 && Rewrites(g, f) != []
    ensures h in LeafFormSet(Expand(g, f, k)) <==>
      exists i :: 0 <= i < |Rewrites(g, f)| && h in LeafFormSet(Expand(g, Rewrites(g, f)[i], k - 1))
  {
    ExpandChildren(g, f, k);
    LeafFormSetOfNode(Expand(g, f, k), h);
  }

  /** A form of terminals only is irreducible in every grammar. */
  lemma TerminalsIrreducible(g: Grammar, h: seq<Symbol>)
    requires forall i :: 0 <= i < |h| ==> h[i].Terminal?
    ensures Irreducible(g, h)
  {
    forall i | 0 <= i < |h| ensures !HasRule(g, h[i]) {
      forall x | x in g.rules ensures x.left != h[i] {
        assert x.left.NonTerminal?;
      }
    }
  }

  /** The leaf forms below a reducible form are those below its rewrites. */
  lemma LeafFormsByRewrite(g: Grammar, f: seq<Symbol>, k: nat, h: seq<Symbol>)
    requires k > 0 && !Irreducible(g, f)
    ensures h in LeafFormSet(Expand(g, f, k)) <==>
      exists c :: IsRewrite(g, f, c) && h in LeafFormSet(Expand(g, c, k - 1))
  {
    NoRewritesIffIrreducible(g, f);
    ExpandLeafFormsUnion(g, f, k, h);
    var rw := Rewrites(g, f);
    if exists c :: IsRewrite(g, f, c) && h in LeafFormSet(Expand(g, c, k - 1)) {
      var c :| IsRewrite(g, f, c) && h in LeafFormSet(Expand(g, c, k - 1));
      RewritesExactly(g, f, c);
      var i :| 0 <= i < |rw| && rw[i] == c;
    }
    if exists i :: 0 <= i < |rw| && h in LeafFormSet(Expand(g, rw[i], k - 1)) {
      var i :| 0 <= i < |rw| && h in LeafFormSet(Expand(g, rw[i], k - 1));
      RewritesExactly(g, f, rw[i]);
    }
  }
}

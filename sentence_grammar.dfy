/**
 * The sentence grammar of the repository's tests: two nouns, one verb and
 * one sentence rule, and what lookup, the vocabulary views and resolution
 * give for it.
 */
module SentenceGrammar {
  import opened Symbols
  import opened Grammars
  import opened Trees
  import opened Resolution

  const Noun: NonTerminalSymbol := NonTerminal("noun")
  const Verb: NonTerminalSymbol := NonTerminal("verb")
  const Sentence: NonTerminalSymbol := NonTerminal("sentence")
  const Cat: Symbol := Terminal("Cat")
  const Dog: Symbol := Terminal("Dog")
  const Eats: Symbol := Terminal("eats")

  const NounCat := Rule(Noun, [Cat])
  const NounDog := Rule(Noun, [Dog])
  const VerbEats := Rule(Verb, [Eats])
  const SentenceRule := Rule(Sentence, [Noun, Verb, Noun])

  /** noun -> Cat | Dog, verb -> eats, sentence -> noun verb noun */
  const G := Grammar([NounCat, NounDog, VerbEats, SentenceRule])

  /** Only the sentence rule: noun and verb are never a left side. */
  const OpenG := Grammar([SentenceRule])

  /** The six symbols of the example are pairwise different. */
  lemma SymbolsDistinct()
    ensures Noun != Verb && Noun != Sentence && Verb != Sentence
    ensures Cat != Dog && Cat != Eats && Dog != Eats
  {
    assert "noun"[0] != "verb"[0] && "noun"[0] != "sentence"[0] && "verb"[0] != "sentence"[0];
    assert "Cat"[0] != "Dog"[0] && "Cat"[0] != "eats"[0] && "Dog"[0] != "eats"[0];
  }

  // ---------------------------------------------------------------------
  // Rule lookup

  /** Lookup in a two-rule sequence is lookup in each rule in turn. */
  lemma LookupTwo(c: Rule, d: Rule, s: Symbol)
    ensures RulesWithLeft([c, d], s) == RulesWithLeft([c], s) + RulesWithLeft([d], s)
  {
    assert [c, d] == [c] + [d];
    RulesWithLeftAppend([c], [d], s);
  }

  /** Lookup in a three-rule sequence is lookup in each rule in turn. */
  lemma LookupThree(b: Rule, c: Rule, d: Rule, s: Symbol)
    ensures RulesWithLeft([b, c, d], s) ==
      RulesWithLeft([b], s) + RulesWithLeft([c], s) + RulesWithLeft([d], s)
  {
    assert [b, c, d] == [b] + [c, d];
    RulesWithLeftAppend([b], [c, d], s);
    LookupTwo(c, d, s);
  }

  /** Lookup in a four-rule sequence is lookup in each rule in turn. */
  lemma LookupFour(a: Rule, b: Rule, c: Rule, d: Rule, s: Symbol)
    ensures RulesWithLeft([a, b, c, d], s) ==
      RulesWithLeft([a], s) + RulesWithLeft([b], s) + RulesWithLeft([c], s) + RulesWithLeft([d], s)
  {
    assert [a, b, c, d] == [a] + [b, c, d];
    RulesWithLeftAppend([a], [b, c, d], s);
    LookupThree(b, c, d, s);
  }

  /** Lookup of s in the single rule x keeps x exactly when it matches. */
  lemma LookupOne(x: Rule, s: Symbol)
    ensures RulesWithLeft([x], s) == if x.left == s then [x] else []
  {
    assert [x][1..] == [];
  }

  /** Lookup in G is lookup in its four rules in turn. */
  lemma LookupByRule(s: Symbol)
    ensures RulesFor(G, s) ==
      RulesWithLeft([NounCat], s) + RulesWithLeft([NounDog], s) + RulesWithLeft([VerbEats], s)
      + RulesWithLeft([SentenceRule], s)
  {
    LookupFour(NounCat, NounDog, VerbEats, SentenceRule, s);
  }

  lemma LookupNoun()
    ensures RulesFor(G, Noun) == [G.rules[0], G.rules[1]]
  {
    SymbolsDistinct();
    LookupByRule(Noun);
    LookupOne(NounCat, Noun);
    LookupOne(NounDog, Noun);
    LookupOne(VerbEats, Noun);
    LookupOne(SentenceRule, Noun);
  }

  lemma LookupSentence()
    ensures RulesFor(G, Sentence) == [G.rules[3]]
  {
    SymbolsDistinct();
    LookupByRule(Sentence);
    LookupOne(NounCat, Sentence);
    LookupOne(NounDog, Sentence);
    LookupOne(VerbEats, Sentence);
    LookupOne(SentenceRule, Sentence);
  }

  lemma LookupVerb()
    ensures RulesFor(G, Verb) == [G.rules[2]]
  {
    SymbolsDistinct();
    LookupByRule(Verb);
    LookupOne(NounCat, Verb);
    LookupOne(NounDog, Verb);
    LookupOne(VerbEats, Verb);
    LookupOne(SentenceRule, Verb);
  }

  /** A terminal is the left side of no rule. */
  lemma LookupTerminal(t: Symbol)
    requires t.Terminal?
    ensures RulesFor(G, t) == []
  {
  }

  // ---------------------------------------------------------------------
  // Vocabulary

  lemma PayloadOrder()
    ensures Order.Less("Cat", "Dog") && Order.Less("Dog", "eats") && Order.Less("Cat", "eats")
    ensures Order.Less("noun", "sentence") && Order.Less("sentence", "verb") && Order.Less("noun", "verb")
  {
  }

  lemma TerminalMembers(t: Symbol)
    ensures t in [Cat, Dog, Eats] <==> t.Terminal? && OnRightSide(G.rules, t)
  {
    if t in [Cat, Dog, Eats] {
      assert t in G.rules[0].right || t in G.rules[1].right || t in G.rules[2].right;
    }
  }

  lemma TerminalTupleExample()
    ensures TerminalTuple(G) == [Cat, Dog, Eats]
  {
    forall t ensures t in [Cat, Dog, Eats] <==> t.Terminal? && OnRightSide(G.rules, t) {
      TerminalMembers(t);
    }
    PayloadOrder();
    TerminalTupleUnique(G, [Cat, Dog, Eats]);
  }

  lemma NonTerminalMembers(n: Symbol)
    ensures n in [Noun, Sentence, Verb] <==> n.NonTerminal? && InSomeRule(G.rules, n)
  {
    if n in [Noun, Sentence, Verb] {
      assert G.rules[0].left == Noun && G.rules[2].left == Verb && G.rules[3].left == Sentence;
    }
  }

  lemma NonTerminalTupleExample()
    ensures NonTerminalTuple(G) == [Noun, Sentence, Verb]
  {
    forall n ensures n in [Noun, Sentence, Verb] <==> n.NonTerminal? && InSomeRule(G.rules, n) {
      NonTerminalMembers(n);
    }
    PayloadOrder();
    NonTerminalTupleUnique(G, [Noun, Sentence, Verb]);
  }

  lemma OpenNonTerminalMembers(n: Symbol)
    ensures n in [Noun, Sentence, Verb] <==> n.NonTerminal? && InSomeRule(OpenG.rules, n)
  {
    assert OpenG.rules == [SentenceRule];
    if n in [Noun, Sentence, Verb] {
      assert n == SentenceRule.left || n in SentenceRule.right;
    }
  }

  /** A non-terminal that only occurs on a right side is still listed. */
  lemma OpenNonTerminalTupleExample()
    ensures NonTerminalTuple(OpenG) == [Noun, Sentence, Verb]
  {
    forall n ensures n in [Noun, Sentence, Verb] <==> n.NonTerminal? && InSomeRule(OpenG.rules, n) {
      OpenNonTerminalMembers(n);
    }
    PayloadOrder();
    NonTerminalTupleUnique(OpenG, [Noun, Sentence, Verb]);
  }

  lemma MembersOfThree(t: seq<Symbol>)
    requires t == [Noun, Sentence, Verb]
    ensures (set n | n in t) == {Sentence, Noun, Verb}
  {
    forall n ensures n in t <==> n in {Sentence, Noun, Verb} {
      assert n in t <==> n == t[0] || n == t[1] || n == t[2];
    }
  }

  /** The same, compared as sets, as the repository's test does. */
  lemma OpenNonTerminalSetExample()
    ensures (set n | n in NonTerminalTuple(OpenG)) == {Sentence, Noun, Verb}
  {
    OpenNonTerminalTupleExample();
    MembersOfThree(NonTerminalTuple(OpenG));
  }

  // ---------------------------------------------------------------------
  // Resolution

  /** Where the sentence rule is the only rule for sentence, (sentence) has
      the single rewrite noun verb noun. */
  lemma SingleRuleRewrite(g: Grammar)
    requires RulesFor(g, Sentence) == [SentenceRule]
    ensures Rewrites(g, [Sentence]) == [[Noun, Verb, Noun]]
  {
    assert Replace([Sentence], 0, SentenceRule) == [Noun, Verb, Noun];
  }

  lemma SentenceRewrites()
    ensures Rewrites(G, [Sentence]) == [[Noun, Verb, Noun]]
    ensures Rewrites(OpenG, [Sentence]) == [[Noun, Verb, Noun]]
  {
    LookupSentence();
    SingleRuleRewrite(G);
    LookupOne(SentenceRule, Sentence);
    SingleRuleRewrite(OpenG);
  }

  /** With limit 1 the root is rewritten once and nothing further. */
  lemma ResolveWithLimitExample()
    ensures LeafFormSet(Resolve(G, Sentence, 1)) == {[Noun, Verb, Noun]}
  {
    SentenceRewrites();
    ExpandChildren(G, [Sentence], 1);
    var t := Resolve(G, Sentence, 1);
    assert t.children == [Expand(G, [Noun, Verb, Noun], 0)];
    forall h ensures h in LeafFormSet(t) <==> h == [Noun, Verb, Noun] {
      LeafFormSetOfNode(t, h);
    }
  }

  /** Without rules for noun and verb, the sentence resolves to the single
      leaf form noun verb noun, whatever the limit beyond the first step. */
  lemma OpenResolveExample(limit: nat)
    requires limit >= 1
    ensures LeafFormSet(Resolve(OpenG, Sentence, limit)) == {[Noun, Verb, Noun]}
    ensures Complete(OpenG, Resolve(OpenG, Sentence, limit))
  {
    SentenceRewrites();
    OpenIrreducible();
    OnlyRewriteIsLeaf(OpenG, [Sentence], [Noun, Verb, Noun], limit);
  }

  /** In OpenG, noun verb noun has nothing left to rewrite. */
  lemma OpenIrreducible()
    ensures Irreducible(OpenG, [Noun, Verb, Noun])
  {
    var f := [Noun, Verb, Noun];
    forall i | 0 <= i < |f| ensures !HasRule(OpenG, f[i]) {
      forall x | x in OpenG.rules ensures x.left != f[i] {
        assert x == SentenceRule;
      }
    }
  }

  /** A form whose single rewrite is irreducible resolves to that one leaf. */
  lemma OnlyRewriteIsLeaf(g: Grammar, f: seq<Symbol>, c: seq<Symbol>, k: nat)
    requires k > 0 && Rewrites(g, f) == [c] && Irreducible(g, c)
    ensures LeafFormSet(Expand(g, f, k)) == {c}
    ensures Complete(g, Expand(g, f, k))
  {
    OnlyRewriteLeafForms(g, f, c, k);
    IrreducibleIsLeaf(g, c, k - 1);
    forall h | h in LeafFormSet(Expand(g, f, k)) ensures Irreducible(g, h) {
      assert h == c;
    }
  }

  /** A form with a single rewrite has the leaf forms of that rewrite. */
  lemma OnlyRewriteLeafForms(g: Grammar, f: seq<Symbol>, c: seq<Symbol>, k: nat)
    requires k > 0 && Rewrites(g, f) == [c]
    ensures LeafFormSet(Expand(g, f, k)) == LeafFormSet(Expand(g, c, k - 1))
  {
    ExpandChildren(g, f, k);
    forall h ensures h in LeafFormSet(Expand(g, f, k)) <==> h in LeafFormSet(Expand(g, c, k - 1)) {
      LeafFormSetOfNode(Expand(g, f, k), h);
    }
  }

  // ---------------------------------------------------------------------
  // Resolution without a limit

  /** The words a rule of G puts in place of n. */
  predicate WordFor(n: Symbol, w: Symbol) {
    (n == Noun && (w == Cat || w == Dog)) || (n == Verb && w == Eats)
  }

  predicate NounSlot(s: Symbol) { s == Noun || s == Cat || s == Dog }

  predicate VerbSlot(s: Symbol) { s == Verb || s == Eats }

  /** The forms that rewriting noun verb noun passes through. */
  predicate Shaped(f: seq<Symbol>) {
    |f| == 3 && NounSlot(f[0]) && VerbSlot(f[1]) && NounSlot(f[2])
  }

  /** How many non-terminals of a shaped form are still to be rewritten. */
  function Pending(f: seq<Symbol>): nat
    requires |f| == 3
  {
    (if f[0].NonTerminal? then 1 else 0) + (if f[1].NonTerminal? then 1 else 0)
    + (if f[2].NonTerminal? then 1 else 0)
  }

  /** h is a sentence of words only that keeps every word f already has. */
  predicate Completes(f: seq<Symbol>, h: seq<Symbol>) {
    |f| == 3 && Shaped(h) && h[0].Terminal? && h[1].Terminal? && h[2].Terminal?
    && (forall i :: 0 <= i < 3 ==> f[i].Terminal? ==> h[i] == f[i])
  }

  /** A rule of G for a slot symbol puts a single word in its place. */
  lemma SlotRule(x: Rule, n: Symbol)
    requires x in G.rules && x.left == n && (NounSlot(n) || VerbSlot(n))
    ensures |x.right| == 1 && WordFor(n, x.right[0])
  {
    SymbolsDistinct();
    assert x != SentenceRule;
  }

  /** Replacing a symbol by a one-symbol right side is an update. */
  lemma ReplaceByOne(f: seq<Symbol>, i: nat, x: Rule)
    requires i < |f| && |x.right| == 1
    ensures Replace(f, i, x) == f[i := x.right[0]]
  {
  }

  /** Every rewrite of a shaped form puts a word in place of one non-terminal. */
  lemma ShapedRewriteIsWord(f: seq<Symbol>, c: seq<Symbol>)
    requires Shaped(f) && IsRewrite(G, f, c)
    ensures exists i, w :: 0 <= i < 3 && WordFor(f[i], w) && c == f[i := w]
  {
    var i: nat, x :| i < |f| && x in G.rules && x.left == f[i] && c == Replace(f, i, x);
    SlotRule(x, f[i]);
    ReplaceByOne(f, i, x);
  }

  /** Putting a word in place of a non-terminal is a rewrite. */
  lemma WordIsRewrite(f: seq<Symbol>, i: nat, w: Symbol)
    requires i < |f| && WordFor(f[i], w)
    ensures IsRewrite(G, f, f[i := w])
  {
    var x := Rule(f[i], [w]);
    assert x in G.rules;
    assert f[i := w] == Replace(f, i, x);
  }

  /** A rewrite of a shaped form is shaped, has one non-terminal fewer,
      and every completion of it completes the form. */
  lemma RewriteStep(f: seq<Symbol>, c: seq<Symbol>, h: seq<Symbol>)
    requires Shaped(f) && IsRewrite(G, f, c)
    ensures Shaped(c) && Pending(c) < Pending(f)
    ensures Completes(c, h) ==> Completes(f, h)
  {
    ShapedRewriteIsWord(f, c);
    var j, v :| 0 <= j < 3 && WordFor(f[j], v) && c == f[j := v];
  }

  /** A completion of a form with a non-terminal left completes one of its
      rewrites. */
  lemma CompletionStep(f: seq<Symbol>, h: seq<Symbol>)
    requires Shaped(f) && Pending(f) > 0 && Completes(f, h)
    ensures exists c :: IsRewrite(G, f, c) && Completes(c, h)
  {
    var i :| 0 <= i < 3 && f[i].NonTerminal?;
    WordIsRewrite(f, i, h[i]);
    assert Completes(f[i := h[i]], h);
  }

  /** A shaped form with a non-terminal left can be rewritten. */
  lemma PendingReducible(f: seq<Symbol>)
    requires Shaped(f) && Pending(f) > 0
    ensures !Irreducible(G, f)
  {
    var i :| 0 <= i < 3 && f[i].NonTerminal?;
    var w := if f[i] == Noun then Cat else Eats;
    assert Rule(f[i], [w]) in G.rules;
  }

  /** A shaped form of words only is its own only completion. */
  lemma WordsLeafForms(f: seq<Symbol>, k: nat, h: seq<Symbol>)
    requires Shaped(f) && Pending(f) == 0
    ensures h in LeafFormSet(Expand(G, f, k)) <==> Completes(f, h)
  {
    TerminalsIrreducible(G, f);
    IrreducibleIsLeaf(G, f, k);
    if Completes(f, h) {
      assert h == f;
    }
  }

  /** One layer of resolution of a shaped form, given the leaf forms one
      layer further down. */
  lemma LeafFormsStep(f: seq<Symbol>, k: nat, h: seq<Symbol>)
    requires Shaped(f) && 0 < Pending(f) <= k
    requires forall c :: Shaped(c) && Pending(c) < Pending(f) ==>
      (h in LeafFormSet(Expand(G, c, k - 1)) <==> Completes(c, h))
    ensures h in LeafFormSet(Expand(G, f, k)) <==> Completes(f, h)
  {
    PendingReducible(f);
    LeafFormsByRewrite(G, f, k, h);
    if h in LeafFormSet(Expand(G, f, k)) {
      var c :| IsRewrite(G, f, c) && h in LeafFormSet(Expand(G, c, k - 1));
      RewriteStep(f, c, h);
    }
    if Completes(f, h) {
      CompletionStep(f, h);
      var c :| IsRewrite(G, f, c) && Completes(c, h);
      RewriteStep(f, c, h);
    }
  }

  /** Below a shaped form, with enough layers, the leaf forms are exactly
      its completions to sentences of words. */
  lemma {:induction false} ShapedLeafForms(f: seq<Symbol>, k: nat, h: seq<Symbol>)
    requires Shaped(f) && Pending(f) <= k
    ensures h in LeafFormSet(Expand(G, f, k)) <==> Completes(f, h)
    decreases k
  {
    if Pending(f) == 0 {
      WordsLeafForms(f, k, h);
    } else {
      forall c | Shaped(c) && Pending(c) < Pending(f)
        ensures h in LeafFormSet(Expand(G, c, k - 1)) <==> Completes(c, h)
      {
        ShapedLeafForms(c, k - 1, h);
      }
      LeafFormsStep(f, k, h);
    }
  }

  /** The four sentences of G. */
  const Sentences: set<seq<Symbol>> := {[Cat, Eats, Dog], [Dog, Eats, Cat], [Cat, Eats, Cat], [Dog, Eats, Dog]}

  /** The completions of noun verb noun are the four sentences. */
  lemma SentenceCompletions(h: seq<Symbol>)
    ensures Completes([Noun, Verb, Noun], h) <==> h in Sentences
  {
    if Completes([Noun, Verb, Noun], h) {
      assert h == [h[0], h[1], h[2]];
    }
  }

  /** From four layers on, resolving the sentence gives the four sentences
      of words, and the tree is complete: resolution without a limit. */
  lemma ResolveExample(limit: nat)
    requires limit >= 4
    ensures LeafFormSet(Resolve(G, Sentence, limit)) == Sentences
    ensures Complete(G, Resolve(G, Sentence, limit))
    ensures forall h: seq<Symbol>, i :: h in LeafFormSet(Resolve(G, Sentence, limit)) && 0 <= i < |h| ==> h[i].Terminal?
  {
    SentenceRewrites();
    var f := [Noun, Verb, Noun];
    OnlyRewriteLeafForms(G, [Sentence], f, limit);
    var t := Resolve(G, Sentence, limit);
    forall h ensures h in LeafFormSet(t) <==> h in Sentences {
      ShapedLeafForms(f, limit - 1, h);
      SentenceCompletions(h);
    }
    forall h | h in LeafFormSet(t) ensures Irreducible(G, h) {
      TerminalsIrreducible(G, h);
    }
  }

  /** The leaf forms of the complete tree are exactly the sentences of
      words the grammar derives from the start symbol. */
  lemma ResolveExampleDerivations(h: seq<Symbol>)
    ensures h in Sentences <==> Irreducible(G, h) && exists n: nat :: DerivesIn(G, [Sentence], h, n)
  {
    ResolveExample(4);
    CompleteLeafForms(G, [Sentence], h, 4);
  }
}

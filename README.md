# Context-free grammar generator (mutwo `common_generators`)

A Dafny model of mutwo's context-free-grammar generator: `Terminal` and
`NonTerminal` symbols, `ContextFreeGrammarRule`, and `ContextFreeGrammar`
with rule lookup (`get_context_free_grammar_rule_tuple`), the vocabulary
views `terminal_tuple` and `non_terminal_tuple`, `resolve(start, limit)`
and the `leaves()` of the resulting tree. The repository's fixture grammar
(`noun -> Cat | Dog`, `verb -> eats`, `sentence -> noun verb noun`) and the
one-rule grammar of its last test are modelled as constants. Every asserted
outcome of the tests is proved about them.

Modules, one per file:

- `Symbols` (`symbols.dfy`): the tagged symbol, the rule whose left side is
  a non-terminal by type, and the checked rule constructor.
- `Order` (`order.dfy`): code-point lexicographic order on payloads, and the
  sorted, duplicate-free enumeration of a collection of strings.
- `Grammars` (`grammar.dfy`): the grammar as an ordered rule sequence, rule
  lookup, and the two vocabulary tuples.
- `Trees` (`tree.dfy`): the resolution tree, its depth-first leaves and the
  set of leaf forms.
- `Resolution` (`resolution.dfy`): one-step rewriting, the textbook
  derivation relation, limited resolution, and what the leaves are in terms
  of derivations.
- `SentenceGrammar` (`sentence_grammar.dfy`): the fixture grammars and the
  tests' expectations as lemmas.

How the tests are read (the implementation file is not part of this model):

- A tree node's `data` is a *sentential form*, a sequence of symbols. The
  test joins `leaf.data` with spaces and gets whole sentences, and with
  `limit=1` it gets the single leaf `noun verb noun`
  (tests/generators/chomsky_tests.py:51, 57-61).
- A node's children are the trees of *all* one-step rewrites of its form.
  Positions are taken from left to right, and each non-terminal position
  gets one rewrite per matching rule, in rule order. Resolution is
  deterministic and exhaustive. A form without a rewrite, or one reached at
  the depth limit, is a leaf.
- "No limit" is the limit from which the tree is `Complete`: every leaf form
  is irreducible. `CompleteIsFinal` proves that any larger limit gives the
  same tree. `CompleteLeafForms` proves that the leaf forms are then exactly
  the irreducible forms the grammar derives.
- `terminal_tuple` and `non_terminal_tuple` are sorted by payload and hold
  each symbol once. The asserted `(noun, sentence, verb)` is sorted order,
  not first-seen order, which would be `(noun, verb, sentence)`
  (tests/generators/chomsky_tests.py:68-72). The model follows the tests.
- A non-terminal that is no rule's left side cannot be rewritten, so a
  form made of such symbols stays a leaf (`IrreducibleIsLeaf`). The tests
  never resolve such a grammar: the one-rule grammar of
  tests/generators/chomsky_tests.py:78-84 is only asked for its
  non-terminal tuple. This is the model's reading.
- A tree of single symbols, grown by one randomly chosen rule per
  non-terminal, would not give the leaf set of whole sentences the tests
  assert, so the model does not grow that tree.

## Model

| member | source | states |
|---|---|---|
| Symbols.MakeRule | tests/generators/chomsky_tests.py:21-28 | a rule is built exactly when the left side is a non-terminal; it then keeps the given left and right sides unchanged |
| Order.Less | tests/generators/chomsky_tests.py:63-72 | a payload that sorts strictly before another differs from it |
| Order.LessIrreflexive | tests/generators/chomsky_tests.py:63-72 | no payload sorts strictly before itself |
| Order.LessTransitive | tests/generators/chomsky_tests.py:63-72 | the payload order is transitive |
| Order.LessTotal | tests/generators/chomsky_tests.py:63-72 | two different payloads are always ordered one way or the other |
| Order.Insert | tests/generators/chomsky_tests.py:63-72 | inserting into a strictly sorted sequence keeps it strictly sorted; the members become the old ones plus the inserted one |
| Order.SortedSet | tests/generators/chomsky_tests.py:63-72 | the result is strictly sorted, and a string is in it iff it is in the input: de-duplication and sorting |
| Order.StrictlySortedDistinct | tests/generators/chomsky_tests.py:63-72 | a strictly sorted sequence has no repeated element |
| Order.SortedUnique | tests/generators/chomsky_tests.py:63-72 | two strictly sorted sequences with the same members are equal, so each collection has one sorted enumeration |
| Grammars.RulesFor | tests/generators/chomsky_tests.py:34-47 | a rule is returned iff it is a rule of the grammar and its left side is the looked-up symbol; a terminal gets no rule |
| Grammars.RulesWithLeft | tests/generators/chomsky_tests.py:34-47 | lookup never returns more rules than the sequence holds; its contents and order are stated by the three lemmas below |
| Grammars.RulesWithLeftMember | tests/generators/chomsky_tests.py:34-47 | filtering a rule sequence by left side keeps exactly the matching rules |
| Grammars.RulesWithLeftCount | tests/generators/chomsky_tests.py:34-47 | each matching rule keeps all its occurrences (duplicates included), and every other rule occurs zero times |
| Grammars.RulesWithLeftAppend | tests/generators/chomsky_tests.py:34-47 | lookup distributes over concatenation of rule sequences, so it preserves the rules' original order |
| Grammars.TerminalPayloadsIn | tests/generators/chomsky_tests.py:63-66 | a payload is listed iff some terminal in the right side carries it |
| Grammars.NonTerminalPayloadsIn | tests/generators/chomsky_tests.py:68-88 | a payload is listed iff some non-terminal in the right side carries it |
| Grammars.TerminalPayloads | tests/generators/chomsky_tests.py:63-66 | a payload is collected iff a terminal with it occurs on some right side |
| Grammars.NonTerminalPayloads | tests/generators/chomsky_tests.py:68-88 | a payload is collected iff a non-terminal with it is some left side or occurs on some right side |
| Grammars.TerminalTuple | tests/generators/chomsky_tests.py:63-66 | only terminals; a symbol is in it iff it is a terminal on some right side; strictly sorted by payload |
| Grammars.NonTerminalTuple | tests/generators/chomsky_tests.py:68-88 | only non-terminals; a symbol is in it iff it is a non-terminal that is a left side or occurs on a right side; strictly sorted by payload |
| Grammars.SameTagPayloadsInjective | tests/generators/chomsky_tests.py:8-19 | symbols of one tag with the same payloads are the same symbols |
| Grammars.SortedByPayloadUnique | tests/generators/chomsky_tests.py:63-72 | two payload-sorted sequences of symbols of one tag with the same members are equal |
| Grammars.TerminalTupleUnique | tests/generators/chomsky_tests.py:63-66 | any payload-sorted listing of exactly the right-side terminals equals the terminal tuple |
| Grammars.NonTerminalTupleUnique | tests/generators/chomsky_tests.py:68-72 | any payload-sorted listing of exactly the mentioned non-terminals equals the non-terminal tuple |
| Grammars.TuplesDistinct | tests/generators/chomsky_tests.py:63-72 | neither tuple holds a symbol twice |
| Grammars.NonTerminalTupleCoversRules | tests/generators/chomsky_tests.py:74-88 | every left side and every non-terminal on a right side is in the non-terminal tuple; every right-side terminal is in the terminal tuple |
| Trees.Leaves | tests/generators/chomsky_tests.py:51 | a tree has at least one leaf, and every listed leaf has no children |
| Trees.LeavesOf | tests/generators/chomsky_tests.py:51 | a non-empty forest has a leaf, and every listed leaf has no children |
| Trees.LeavesOfMember | tests/generators/chomsky_tests.py:51 | a leaf of a forest is exactly a leaf of one of its trees |
| Trees.LeavesExactly | tests/generators/chomsky_tests.py:51 | the listed leaves are exactly the childless nodes within the tree |
| Trees.LeafFormSet | tests/generators/chomsky_tests.py:51 | the set of leaf forms is never empty; a single-node tree gives just its own form |
| Trees.LeafFormSetOfNode | tests/generators/chomsky_tests.py:51 | an inner node's leaf forms are those of its children together |
| Resolution.ReplaceShift | tests/generators/chomsky_tests.py:49-55 | rewriting after the first symbol keeps the first symbol in front |
| Resolution.Rewrites | tests/generators/chomsky_tests.py:49-61 | a node gets one rewrite for each pair of a position and a rule whose left side is the symbol there |
| Resolution.ListedIsRewrite | tests/generators/chomsky_tests.py:49-55 | every listed rewrite is a rewrite by a grammar rule at some position |
| Resolution.RewriteListed | tests/generators/chomsky_tests.py:49-55 | every rewrite of a non-terminal position by a matching rule is among the node's listed rewrites |
| Resolution.RewritesExactly | tests/generators/chomsky_tests.py:49-55 | a form is listed as a rewrite iff it is a one-step rewrite of the parent form |
| Resolution.NoRewritesIffIrreducible | tests/generators/chomsky_tests.py:49-61 | a form has no rewrites iff none of its symbols is the left side of a rule |
| Resolution.DerivesInSplit | tests/generators/chomsky_tests.py:49-55 | a derivation of a + b steps passes through a form reached after a steps |
| Resolution.DerivesOnwardReducible | tests/generators/chomsky_tests.py:49-55 | a form that still derives something in one or more steps is not irreducible |
| Resolution.Expand | tests/generators/chomsky_tests.py:49-61 | every tree carries its form at the root, and with limit 0 the root is not expanded |
| Resolution.ExpandAll | tests/generators/chomsky_tests.py:49-61 | one tree per form |
| Resolution.ExpandAllAt | tests/generators/chomsky_tests.py:49-61 | the i-th tree is the tree of the i-th form |
| Resolution.Resolve | tests/generators/chomsky_tests.py:49-61 | the tree is rooted at the one-symbol form of the start symbol |
| Resolution.IrreducibleIsLeaf | tests/generators/chomsky_tests.py:49-61 | a form no rule applies to resolves to a single leaf, whatever the limit |
| Resolution.ExpandChildren | tests/generators/chomsky_tests.py:49-61 | below the limit, a node has one child per rewrite, and each child is the tree of that rewrite with one layer fewer |
| Resolution.DerivesFirstStep | tests/generators/chomsky_tests.py:49-55 | a derivation of n > 0 steps starts with one of the listed rewrites |
| Resolution.LeafFormOfStepDown | tests/generators/chomsky_tests.py:49-61 | a leaf form of a reducible form is a leaf form of one of its rewrites, with one layer fewer |
| Resolution.LeafFormOfStepUp | tests/generators/chomsky_tests.py:49-61 | a leaf form of a rewrite, with one layer fewer, is a leaf form of the form it came from |
| Resolution.LeafFormOfStep | tests/generators/chomsky_tests.py:49-61 | at a reducible form, the leaf-form relation passes through the first rewriting step |
| Resolution.LeafFormOfIrreducible | tests/generators/chomsky_tests.py:49-61 | at a form no rule applies to, the only leaf form is the form itself |
| Resolution.LeafFormsOfStuckNode | tests/generators/chomsky_tests.py:57-61 | at the limit or at an irreducible form, the tree's leaf forms match the leaf-form relation |
| Resolution.LeafFormsOfExpandedNode | tests/generators/chomsky_tests.py:49-61 | at an expanded node, the leaf forms match the relation when they do for every child |
| Resolution.ExpandLeafForms | tests/generators/chomsky_tests.py:49-61 | h is a leaf form of the limit-k tree iff it is derived in exactly k steps, or is irreducible and derived in fewer |
| Resolution.CompleteChild | tests/generators/chomsky_tests.py:49-55 | every subtree of a complete tree is complete |
| Resolution.CompleteAtRoot | tests/generators/chomsky_tests.py:49-55 | a single-node tree that is complete gains no children from one more layer |
| Resolution.StableStep | tests/generators/chomsky_tests.py:49-55 | one more layer leaves a tree unchanged when it leaves every subtree unchanged |
| Resolution.CompleteIsStable | tests/generators/chomsky_tests.py:49-55 | once every leaf form is irreducible, one more layer leaves the tree unchanged |
| Resolution.CompleteIsFinal | tests/generators/chomsky_tests.py:49-55 | once the tree is complete, every larger limit gives the same tree: this is resolution without a limit |
| Resolution.CompleteLeafForms | tests/generators/chomsky_tests.py:49-55 | the leaf forms of a complete tree are exactly the irreducible forms derivable from the root |
| Resolution.ExpandLeafFormsUnion | tests/generators/chomsky_tests.py:49-61 | an expanded node's leaf forms are the union of those of its rewrites' trees |
| Resolution.TerminalsIrreducible | tests/generators/chomsky_tests.py:49-55 | a form of terminals only cannot be rewritten in any grammar |
| Resolution.LeafFormsByRewrite | tests/generators/chomsky_tests.py:49-55 | below a reducible form, h is a leaf form iff it is one below some one-step rewrite |
| SentenceGrammar.SymbolsDistinct | tests/generators/chomsky_tests.py:14-19 | the six fixture symbols are pairwise different |
| SentenceGrammar.LookupTwo | tests/generators/chomsky_tests.py:21-28 | lookup in a two-rule sequence is the lookup in each rule, in order |
| SentenceGrammar.LookupThree | tests/generators/chomsky_tests.py:21-28 | lookup in a three-rule sequence is the lookup in each rule, in order |
| SentenceGrammar.LookupFour | tests/generators/chomsky_tests.py:21-28 | lookup in a four-rule sequence is the lookup in each rule, in order |
| SentenceGrammar.LookupOne | tests/generators/chomsky_tests.py:21-28 | lookup in one rule keeps it exactly when its left side matches |
| SentenceGrammar.LookupByRule | tests/generators/chomsky_tests.py:34-47 | lookup in the fixture grammar is the rule-by-rule filter of its four rules |
| SentenceGrammar.LookupNoun | tests/generators/chomsky_tests.py:35-41 | looking up noun gives rules 0 and 1, in that order |
| SentenceGrammar.LookupSentence | tests/generators/chomsky_tests.py:42-47 | looking up sentence gives rule 3 only |
| SentenceGrammar.LookupVerb | tests/generators/chomsky_tests.py:21-28 | looking up verb gives rule 2 only |
| SentenceGrammar.LookupTerminal | tests/generators/chomsky_tests.py:21-28 | looking up a terminal gives no rule |
| SentenceGrammar.PayloadOrder | tests/generators/chomsky_tests.py:63-72 | Cat < Dog < eats and noun < sentence < verb in code-point order |
| SentenceGrammar.TerminalMembers | tests/generators/chomsky_tests.py:63-66 | Cat, Dog and eats are exactly the terminals on the fixture's right sides |
| SentenceGrammar.TerminalTupleExample | tests/generators/chomsky_tests.py:63-66 | the terminal tuple is (Cat, Dog, eats) |
| SentenceGrammar.NonTerminalMembers | tests/generators/chomsky_tests.py:68-72 | noun, sentence and verb are exactly the non-terminals the fixture mentions |
| SentenceGrammar.NonTerminalTupleExample | tests/generators/chomsky_tests.py:68-72 | the non-terminal tuple is (noun, sentence, verb), although noun occurs four times |
| SentenceGrammar.OpenNonTerminalMembers | tests/generators/chomsky_tests.py:74-88 | in the one-rule grammar, noun, sentence and verb are exactly the mentioned non-terminals |
| SentenceGrammar.OpenNonTerminalTupleExample | tests/generators/chomsky_tests.py:74-88 | in the one-rule grammar the non-terminal tuple is still (noun, sentence, verb) |
| SentenceGrammar.MembersOfThree | tests/generators/chomsky_tests.py:85-88 | the members of (noun, sentence, verb) form the set {sentence, noun, verb} |
| SentenceGrammar.OpenNonTerminalSetExample | tests/generators/chomsky_tests.py:85-88 | as a set, the one-rule grammar's non-terminal tuple is {sentence, noun, verb} |
| SentenceGrammar.SentenceRewrites | tests/generators/chomsky_tests.py:57-61 | in both grammars the only rewrite of (sentence) is (noun verb noun) |
| SentenceGrammar.SingleRuleRewrite | tests/generators/chomsky_tests.py:42-47 | in any grammar whose only rule for sentence is noun verb noun, that is the only rewrite of (sentence) |
| SentenceGrammar.ResolveWithLimitExample | tests/generators/chomsky_tests.py:57-61 | with limit 1 the leaf forms are exactly {noun verb noun} |
| SentenceGrammar.OpenIrreducible | tests/generators/chomsky_tests.py:78-84 | in the one-rule grammar, no rule applies to noun verb noun |
| SentenceGrammar.OnlyRewriteLeafForms | tests/generators/chomsky_tests.py:49-61 | a form with a single rewrite has exactly the leaf forms of that rewrite, one layer down |
| SentenceGrammar.OnlyRewriteIsLeaf | tests/generators/chomsky_tests.py:49-61 | a form whose single rewrite is irreducible has just that leaf form, and its tree is complete |
| SentenceGrammar.OpenResolveExample | tests/generators/chomsky_tests.py:78-84 | in the one-rule grammar, every limit from 1 on gives the single leaf form noun verb noun, and the tree is complete |
| SentenceGrammar.SlotRule | tests/generators/chomsky_tests.py:21-28 | a fixture rule for noun or verb puts a single word in its place |
| SentenceGrammar.ReplaceByOne | tests/generators/chomsky_tests.py:21-28 | rewriting by a one-symbol right side replaces that one position |
| SentenceGrammar.ShapedRewriteIsWord | tests/generators/chomsky_tests.py:49-55 | every rewrite of a form between noun verb noun and a sentence puts a word in place of one non-terminal |
| SentenceGrammar.WordIsRewrite | tests/generators/chomsky_tests.py:49-55 | putting a matching word in place of a non-terminal is a rewrite |
| SentenceGrammar.RewriteStep | tests/generators/chomsky_tests.py:49-55 | such a rewrite has one pending non-terminal fewer, and each of its completions completes the form |
| SentenceGrammar.CompletionStep | tests/generators/chomsky_tests.py:49-55 | each completion of a form with a pending non-terminal completes one of its rewrites |
| SentenceGrammar.PendingReducible | tests/generators/chomsky_tests.py:49-55 | a form with a pending non-terminal can be rewritten |
| SentenceGrammar.WordsLeafForms | tests/generators/chomsky_tests.py:49-55 | a sentence of words is its own only leaf form |
| SentenceGrammar.LeafFormsStep | tests/generators/chomsky_tests.py:49-55 | one layer of resolution maps the leaf forms of the rewrites to the completions of the form |
| SentenceGrammar.ShapedLeafForms | tests/generators/chomsky_tests.py:49-55 | given as many layers as pending non-terminals, the leaf forms are exactly the completions to sentences of words |
| SentenceGrammar.SentenceCompletions | tests/generators/chomsky_tests.py:52-54 | the completions of noun verb noun are the four sentences |
| SentenceGrammar.ResolveExample | tests/generators/chomsky_tests.py:49-55 | from limit 4 on, the leaf forms of resolving sentence are exactly {Cat eats Dog, Dog eats Cat, Cat eats Cat, Dog eats Dog}; the tree is complete, and every leaf holds terminals only |
| SentenceGrammar.ResolveExampleDerivations | tests/generators/chomsky_tests.py:49-55 | those four sentences are exactly the irreducible forms the grammar derives from sentence |

## Left out

- The implementation module of `mutwo.common_generators` is not part of this model. Its behaviour is taken from the repository's tests.
- `unittest` harness, `setUp` plumbing and the `__main__` runner: test infrastructure with no behaviour of the generator.
- Python's `str` subclassing of symbols: a symbol is a datatype over a string. Under Python's string equality a terminal and a non-terminal with the same payload would compare equal. The model keeps them apart by tag. The fixtures never use one payload with both tags.
- Random rule choice: the tests assert a deterministic, exhaustive leaf set, so every matching rule is used, in rule order.
- The tree library behind `resolve` and `leaves()`: the tree is an inductive datatype, and leaves are collected depth first, left to right.
- Joining leaf data with spaces for display: leaf forms are compared as symbol sequences.
- Resolution.Resolve: `limit=None` is not a parameter value. The limit is a natural number; "no limit" is any limit at which the tree is complete. For a cyclic grammar that never happens, which is when the unlimited call would not terminate.
- Resolution.Rewrites: the order of a node's children (positions left to right, then rules in rule order) is a modelling choice. The tests compare leaf forms as a set and do not fix it. The tests also do not fix whether every non-terminal position is rewritten or only the leftmost one. The two readings agree without a limit and at limit 1. From limit 2 on they differ: the model also has leaves such as `noun eats noun` and `noun verb Cat`.
- SentenceGrammar.OpenResolveExample: that a rule-less non-terminal stays a leaf is the model's reading, not a tested behaviour. The test of tests/generators/chomsky_tests.py:74-88 does not resolve this grammar.

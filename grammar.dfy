/**
 * A context-free grammar: an ordered collection of rules, rule lookup by
 * left side, and the two vocabulary views (terminals and non-terminals).
 */
module Grammars {
  import opened Symbols
  import Order

  /** The rules in the order the caller supplied them; duplicates are kept. */
  datatype Grammar = Grammar(rules: seq<Rule>)

  /** The rules of `rules` whose left side is s, in their original order. */
  function RulesWithLeft(rules: seq<Rule>, s: Symbol): (r: seq<Rule>)
    ensures |r| <= |rules|
    decreases |rules|
  {
    if rules == [] then [] else (if rules[0].left == s then [rules[0]] else []) + RulesWithLeft(rules[1..], s)
  }

  /** Lookup keeps exactly the rules whose left side matches. */
  lemma {:induction false} RulesWithLeftMember(rules: seq<Rule>, s: Symbol, x: Rule)
    ensures x in RulesWithLeft(rules, s) <==> x in rules && x.left == s
    decreases |rules|
  {
    if rules != [] {
      assert rules == [rules[0]] + rules[1..];
      RulesWithLeftMember(rules[1..], s, x);
    }
  }

  /** The rule lookup of the grammar: every rule rewriting s, in rule order.
      A terminal, or a non-terminal that is never a left side, gets none. */
  function RulesFor(g: Grammar, s: Symbol): (r: seq<Rule>)
    ensures forall x :: x in r <==> x in g.rules && x.left == s
    ensures s.Terminal? ==> r == []
  {
    var r := RulesWithLeft(g.rules, s);
    forall x ensures x in r <==> x in g.rules && x.left == s {
      RulesWithLeftMember(g.rules, s, x);
    }
    assert r != [] ==> r[0] in r && r[0].left.NonTerminal?;
    r
  }

  /** Lookup keeps every occurrence of a matching rule, duplicates included,
      and drops every other rule. */
  lemma {:induction false} RulesWithLeftCount(rules: seq<Rule>, s: Symbol, x: Rule)
    ensures multiset(RulesWithLeft(rules, s))[x] == if x.left == s then multiset(rules)[x] else 0
    decreases |rules|
  {
    if rules != [] {
      assert rules == [rules[0]] + rules[1..];
      RulesWithLeftCount(rules[1..], s, x);
    }
  }

  /** Rule lookup is an order-preserving filter: it distributes over
      concatenation of rule sequences. */
  lemma {:induction false} RulesWithLeftAppend(a: seq<Rule>, b: seq<Rule>, s: Symbol)
    ensures RulesWithLeft(a + b, s) == RulesWithLeft(a, s) + RulesWithLeft(b, s)
    decreases |a|
  {
    if a != [] {
      var head := if a[0].left == s then [a[0]] else [];
      assert (a + b)[0] == a[0];
      assert (a + b)[1..] == a[1..] + b;
      calc {
        RulesWithLeft(a + b, s);
        head + RulesWithLeft(a[1..] + b, s);
        { RulesWithLeftAppend(a[1..], b, s); }
        head + (RulesWithLeft(a[1..], s) + RulesWithLeft(b, s));
        (head + RulesWithLeft(a[1..], s)) + RulesWithLeft(b, s);
      }
    } else {
      assert a + b == b;
    }
  }

  // ---------------------------------------------------------------------
  // Vocabulary

  /** Payloads of the terminals of syms, in order. */
  function TerminalPayloadsIn(syms: seq<Symbol>): (r: seq<string>)
    ensures forall p :: p in r <==> Terminal(p) in syms
    decreases |syms|
  {
    if syms == [] then []
    else
      (if syms[0].Terminal? then [syms[0].payload] else []) + TerminalPayloadsIn(syms[1..])
  }

  /** Payloads of the non-terminals of syms, in order. */
  function NonTerminalPayloadsIn(syms: seq<Symbol>): (r: seq<string>)
    ensures forall p :: p in r <==> NonTerminal(p) in syms
    decreases |syms|
  {
    if syms == [] then []
    else
      (if syms[0].NonTerminal? then [syms[0].payload] else []) + NonTerminalPayloadsIn(syms[1..])
  }

  /** t occurs on some right side of the rules. */
  ghost predicate OnRightSide(rules: seq<Rule>, t: Symbol) {
    exists x :: x in rules && t in x.right
  }

  /** n is the left side of some rule or occurs on some right side. */
  ghost predicate InSomeRule(rules: seq<Rule>, n: Symbol) {
    exists x :: x in rules && (x.left == n || n in x.right)
  }

  function TerminalPayloads(rules: seq<Rule>): (r: seq<string>)
    ensures forall p :: p in r <==> OnRightSide(rules, Terminal(p))
    decreases |rules|
  {
    if rules == [] then []
    else
      var r := TerminalPayloadsIn(rules[0].right) + TerminalPayloads(rules[1..]);
      assert forall p :: OnRightSide(rules, Terminal(p)) ==>
        Terminal(p) in rules[0].right || OnRightSide(rules[1..], Terminal(p)) by {
        forall p | OnRightSide(rules, Terminal(p))
          ensures Terminal(p) in rules[0].right || OnRightSide(rules[1..], Terminal(p))
        {
          var x :| x in rules && Terminal(p) in x.right;
          if x != rules[0] {
            assert x in rules[1..];
          }
        }
      }
      r
  }

  function NonTerminalPayloads(rules: seq<Rule>): (r: seq<string>)
    ensures forall p :: p in r <==> InSomeRule(rules, NonTerminal(p))
    decreases |rules|
  {
    if rules == [] then []
    else
      var head := [rules[0].left.payload] + NonTerminalPayloadsIn(rules[0].right);
      var r := head + NonTerminalPayloads(rules[1..]);
      assert forall p :: InSomeRule(rules, NonTerminal(p)) ==>
        p in head || InSomeRule(rules[1..], NonTerminal(p)) by {
        forall p | InSomeRule(rules, NonTerminal(p))
          ensures p in head || InSomeRule(rules[1..], NonTerminal(p))
        {
          var x :| x in rules && (x.left == NonTerminal(p) || NonTerminal(p) in x.right);
          if x != rules[0] {
            assert x in rules[1..];
          }
        }
      }
      r
  }

  /** The symbols of s are ordered strictly by payload. */
  predicate SortedByPayload(s: seq<Symbol>) {
    forall i, j :: 0 <= i < j < |s| ==> Order.Less(s[i].payload, s[j].payload)
  }

  function Payloads(s: seq<Symbol>): seq<string> {
    seq(|s|, i requires 0 <= i < |s| => s[i].payload)
  }

  /** Every terminal on any right side, once each, ordered by payload. */
  function TerminalTuple(g: Grammar): (r: seq<Symbol>)
    ensures forall i :: 0 <= i < |r| ==> r[i].Terminal?
    ensures forall t :: t in r <==> t.Terminal? && OnRightSide(g.rules, t)
    ensures SortedByPayload(r)
  {
    var p := Order.SortedSet(TerminalPayloads(g.rules));
    var r := seq(|p|, i requires 0 <= i < |p| => Terminal(p[i]));
    assert forall t :: t in r <==> t.Terminal? && t.payload in p by {
      forall t ensures t in r <==> t.Terminal? && t.payload in p {
        if t.Terminal? && t.payload in p {
          var i :| 0 <= i < |p| && p[i] == t.payload;
          assert r[i] == t;
        }
      }
    }
    r
  }

  /** Every non-terminal that is a left side or occurs on a right side, once
      each, ordered by payload. */
  function NonTerminalTuple(g: Grammar): (r: seq<Symbol>)
    ensures forall i :: 0 <= i < |r| ==> r[i].NonTerminal?
    ensures forall n :: n in r <==> n.NonTerminal? && InSomeRule(g.rules, n)
    ensures SortedByPayload(r)
  {
    var p := Order.SortedSet(NonTerminalPayloads(g.rules));
    var r := seq(|p|, i requires 0 <= i < |p| => NonTerminal(p[i]));
    assert forall n :: n in r <==> n.NonTerminal? && n.payload in p by {
      forall n ensures n in r <==> n.NonTerminal? && n.payload in p {
        if n.NonTerminal? && n.payload in p {
          var i :| 0 <= i < |p| && p[i] == n.payload;
          assert r[i] == n;
        }
      }
    }
    r
  }

  /** Symbols of one tag are determined by their payloads. */
  lemma {:induction false} SameTagPayloadsInjective(a: seq<Symbol>, b: seq<Symbol>, terminal: bool)
    requires forall i :: 0 <= i < |a| ==> a[i].Terminal? == terminal
    requires forall i :: 0 <= i < |b| ==> b[i].Terminal? == terminal
    requires Payloads(a) == Payloads(b)
    ensures a == b
  {
    assert |a| == |Payloads(a)| == |Payloads(b)| == |b|;
    forall i | 0 <= i < |a| ensures a[i] == b[i] {
      assert Payloads(a)[i] == Payloads(b)[i];
    }
  }

  /** Two payload-sorted sequences of symbols of one tag with the same
      members are equal. */
  lemma SortedByPayloadUnique(a: seq<Symbol>, b: seq<Symbol>, terminal: bool)
    requires forall i :: 0 <= i < |a| ==> a[i].Terminal? == terminal
    requires forall i :: 0 <= i < |b| ==> b[i].Terminal? == terminal
    requires forall x :: x in a <==> x in b
    requires SortedByPayload(a) && SortedByPayload(b)
    ensures a == b
  {
    var pa, pb := Payloads(a), Payloads(b);
    forall p ensures p in pa <==> p in pb {
      if p in pa {
        var i :| 0 <= i < |a| && pa[i] == p;
        assert a[i] in a;
        var j :| 0 <= j < |b| && b[j] == a[i];
        assert pb[j] == p;
      }
      if p in pb {
        var i :| 0 <= i < |b| && pb[i] == p;
        assert b[i] in b;
        var j :| 0 <= j < |a| && a[j] == b[i];
        assert pa[j] == p;
      }
    }
    Order.SortedUnique(pa, pb);
    SameTagPayloadsInjective(a, b, terminal);
  }

  /** Any duplicate-free payload-sorted listing of the same terminals is the
      terminal tuple: the tuple is the unique sorted enumeration. */
  lemma TerminalTupleUnique(g: Grammar, s: seq<Symbol>)
    requires forall i :: 0 <= i < |s| ==> s[i].Terminal?
    requires forall t :: t in s <==> t.Terminal? && OnRightSide(g.rules, t)
    requires SortedByPayload(s)
    ensures s == TerminalTuple(g)
  {
    SortedByPayloadUnique(s, TerminalTuple(g), true);
  }

  /** Likewise, the non-terminal tuple is the unique sorted enumeration of
      the non-terminals the rules mention. */
  lemma NonTerminalTupleUnique(g: Grammar, s: seq<Symbol>)
    requires forall i :: 0 <= i < |s| ==> s[i].NonTerminal?
    requires forall n :: n in s <==> n.NonTerminal? && InSomeRule(g.rules, n)
    requires SortedByPayload(s)
    ensures s == NonTerminalTuple(g)
  {
    SortedByPayloadUnique(s, NonTerminalTuple(g), false);
  }

  /** Neither tuple repeats a symbol. */
  lemma TuplesDistinct(g: Grammar, i: int, j: int)
    ensures 0 <= i < j < |TerminalTuple(g)| ==> TerminalTuple(g)[i] != TerminalTuple(g)[j]
    ensures 0 <= i < j < |NonTerminalTuple(g)| ==> NonTerminalTuple(g)[i] != NonTerminalTuple(g)[j]
  {
    if 0 <= i < j < |TerminalTuple(g)| {
      Order.LessIrreflexive(TerminalTuple(g)[i].payload);
    }
    if 0 <= i < j < |NonTerminalTuple(g)| {
      Order.LessIrreflexive(NonTerminalTuple(g)[i].payload);
    }
  }

  /** Every left side is a listed non-terminal, and so is every non-terminal
      that occurs only on right sides. */
  lemma NonTerminalTupleCoversRules(g: Grammar, x: Rule, n: Symbol)
    requires x in g.rules
    ensures x.left in NonTerminalTuple(g)
    ensures n in x.right && n.NonTerminal? ==> n in NonTerminalTuple(g)
    ensures n in x.right && n.Terminal? ==> n in TerminalTuple(g)
  {
  }
}

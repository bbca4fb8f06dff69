/**
 * Grammar vocabulary: symbols tagged as terminal or non-terminal, and the
 * rewrite rules of a context-free grammar.
 */
module Symbols {

  /** A symbol is a string payload carrying exactly one of two tags.
      Two symbols are equal iff they have the same tag and the same payload. */
  datatype Symbol = Terminal(payload: string) | NonTerminal(payload: string)

  /** The symbols that may stand on the left side of a rule. */
  type NonTerminalSymbol = s: Symbol | s.NonTerminal? witness NonTerminal("")

  /** A rule "left may be rewritten to right". The left side is a non-terminal
      by construction; the right side is an ordered, possibly empty sequence
      that may mix terminals and non-terminals. */
  datatype Rule = Rule(left: NonTerminalSymbol, right: seq<Symbol>)

  datatype Option<+T> = None | Some(value: T)

  /** Builds a rule from an arbitrary left symbol, refusing a terminal one. */
  function MakeRule(left: Symbol, right: seq<Symbol>): (r: Option<Rule>)
    ensures r.Some? <==> left.NonTerminal?
    ensures r.Some? ==> r.value.left == left && r.value.right == right
  {
    if left.NonTerminal? then Some(Rule(left, right)) else None
  }
}

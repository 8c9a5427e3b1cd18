/**
 * The values the match-bindings algebra works on: pattern binding symbols,
 * the tags of the tree nodes it dispatches on, the (whenTrue, whenFalse)
 * pair of binding lists with its EMPTY sentinel, and the error log that
 * receives "match binding exists" diagnostics.
 */
module BindingModel {

  /** An identifier. Interned names are compared by reference in the compiler; here by value. */
  type Name = string

  /** An opaque source position; the algebra only passes it on to the log. */
  datatype Position = Position(offset: nat)

  /** A variable introduced by a type test pattern (`x instanceof T v`). `clash` stands for the CLASH flag. */
  datatype BindingSymbol = BindingSymbol(name: Name, clash: bool)

  /**
   * The duplicate check shared by intersection and union: same name, and
   * neither symbol already flagged as clashing.
   */
  predicate Collides(a: BindingSymbol, b: BindingSymbol): (r: bool)
    ensures r ==> a.name == b.name
    ensures a.clash || b.clash ==> !r
  {
    a.name == b.name && !a.clash && !b.clash
  }

  /** The node kinds the algebra tells apart; every other kind is some `Other`. */
  datatype Tag = NOT | AND | OR | BINDINGPATTERN | PARENS | TYPETEST | CONDEXPR | Other(code: nat)

  /** Of a tree node, only its tag and its position are used. */
  datatype Tree = Tree(tag: Tag, pos: Position)

  /**
   * The bindings in scope when an expression is true and when it is false.
   * `EMPTY` is the shared sentinel, compared by identity in the compiler: it
   * is a different value from a freshly built pair of two empty lists.
   */
  datatype MatchBindings =
    | EMPTY
    | MatchBindings(bindingsWhenTrue: seq<BindingSymbol>, bindingsWhenFalse: seq<BindingSymbol>)
  {
    /** The when-true list; the sentinel holds an empty one. */
    function WhenTrue(): seq<BindingSymbol>
    {
      if EMPTY? then [] else bindingsWhenTrue
    }

    /** The when-false list; the sentinel holds an empty one. */
    function WhenFalse(): seq<BindingSymbol>
    {
      if EMPTY? then [] else bindingsWhenFalse
    }

    /** Both lists are empty, whether or not this is the sentinel. */
    predicate HasNoBindings()
    {
      WhenTrue() == [] && WhenFalse() == []
    }
  }

  /** The single diagnostic of this component, reported at a position. */
  datatype Diagnostic = MatchBindingExists(pos: Position)

  /** `n` copies of the diagnostic at `pos`: what `n` error reports at one position leave in the log. */
  function Reports(pos: Position, n: nat): (d: seq<Diagnostic>)
    ensures |d| == n
  {
    seq(n, _ => MatchBindingExists(pos))
  }

  /** Reports at one position add up. */
  lemma ReportsAdd(pos: Position, a: nat, b: nat)
    ensures Reports(pos, a) + Reports(pos, b) == Reports(pos, a + b)
  {
  }

  /** Appending the reports of a second step to a log. */
  lemma ReportsAppend(log: seq<Diagnostic>, pos: Position, a: nat, b: nat)
    ensures log + Reports(pos, a) + Reports(pos, b) == log + Reports(pos, a + b)
  {
    ReportsAdd(pos, a, b);
  }

  /** A log that grew by `n` reports and then by `k` more has grown by `n + k`. */
  lemma ReportsChain(log0: seq<Diagnostic>, mid: seq<Diagnostic>, final: seq<Diagnostic>, pos: Position, n: nat, k: nat, total: nat)
    requires mid == log0 + Reports(pos, n)
    requires final == mid + Reports(pos, k)
    requires total == n + k
    ensures final == log0 + Reports(pos, total)
  {
    ReportsAppend(log0, pos, n, k);
  }

  /**
   * Eight successive report steps, as in a conditional's six intersections
   * and two unions: a log that grew through them by `k1`, ..., `k8` reports
   * has grown by their sum.
   */
  lemma ReportsChain8(l0: seq<Diagnostic>, l1: seq<Diagnostic>, l2: seq<Diagnostic>, l3: seq<Diagnostic>, l4: seq<Diagnostic>,
                      l5: seq<Diagnostic>, l6: seq<Diagnostic>, l7: seq<Diagnostic>, l8: seq<Diagnostic>, pos: Position,
                      k1: nat, k2: nat, k3: nat, k4: nat, k5: nat, k6: nat, k7: nat, k8: nat, total: nat)
    requires l1 == l0 + Reports(pos, k1)
    requires l2 == l1 + Reports(pos, k2)
    requires l3 == l2 + Reports(pos, k3)
    requires l4 == l3 + Reports(pos, k4)
    requires l5 == l4 + Reports(pos, k5)
    requires l6 == l5 + Reports(pos, k6)
    requires l7 == l6 + Reports(pos, k7)
    requires l8 == l7 + Reports(pos, k8)
    requires total == k1 + k2 + k3 + k4 + k5 + k6 + k7 + k8
    ensures l8 == l0 + Reports(pos, total)
  {
    ReportsChain(l0, l1, l2, pos, k1, k2, k1 + k2);
    ReportsChain(l0, l2, l3, pos, k1 + k2, k3, k1 + k2 + k3);
    ReportsChain(l0, l3, l4, pos, k1 + k2 + k3, k4, k1 + k2 + k3 + k4);
    ReportsChain(l0, l4, l5, pos, k1 + k2 + k3 + k4, k5, k1 + k2 + k3 + k4 + k5);
    ReportsChain(l0, l5, l6, pos, k1 + k2 + k3 + k4 + k5, k6, k1 + k2 + k3 + k4 + k5 + k6);
    ReportsChain(l0, l6, l7, pos, k1 + k2 + k3 + k4 + k5 + k6, k7, k1 + k2 + k3 + k4 + k5 + k6 + k7);
    ReportsChain(l0, l7, l8, pos, k1 + k2 + k3 + k4 + k5 + k6 + k7, k8, k1 + k2 + k3 + k4 + k5 + k6 + k7 + k8);
  }

  /** One more report at the same position. */
  lemma ReportsSnoc(log: seq<Diagnostic>, pos: Position, n: nat)
    ensures log + Reports(pos, n) + [MatchBindingExists(pos)] == log + Reports(pos, n + 1)
  {
    assert Reports(pos, n) + [MatchBindingExists(pos)] == Reports(pos, n + 1);
  }

  /** The compiler's diagnostic sink, as an append-only list holding one entry per reported error. */
  class Log {
    var diagnostics: seq<Diagnostic>

    constructor ()
      ensures diagnostics == []
    {
      diagnostics := [];
    }

    /** Records one "match binding exists" error at `pos`. */
    method Error(pos: Position)
      modifies this
      ensures diagnostics == old(diagnostics) + [MatchBindingExists(pos)]
    {
      diagnostics := diagnostics + [MatchBindingExists(pos)];
    }
  }
}

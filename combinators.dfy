/**
 * The four combinators of the algebra as functions of their inputs: what
 * NOT, AND/OR, `?:` and the tag allow-list make of the bindings of their
 * operands, and how many "match binding exists" errors AND/OR and `?:`
 * report through the primitives they call. NOT and the allow-list report
 * nothing: they are functions that never reach the log.
 */
module Combinators {
  import opened BindingModel
  import opened BindingLists

  // ---------------------------------------------------------------------
  // NOT
  // ---------------------------------------------------------------------

  /**
   * `!e` is true exactly when `e` is false, so a NOT node swaps the two
   * lists; the sentinel, and any node that is not a NOT, pass through.
   */
  function Unary(tree: Tree, bindings: MatchBindings): (r: MatchBindings)
    ensures tree.tag == NOT ==> r.WhenTrue() == bindings.WhenFalse() && r.WhenFalse() == bindings.WhenTrue()
    ensures tree.tag != NOT ==> r == bindings
    ensures r.EMPTY? <==> bindings.EMPTY?
  {
    if bindings == EMPTY || tree.tag != NOT then bindings
    else MatchBindings(bindings.bindingsWhenFalse, bindings.bindingsWhenTrue)
  }

  /** Negating twice gives back the very same bindings, for every input. */
  lemma UnaryInvolution(tree: Tree, bindings: MatchBindings)
    ensures Unary(tree, Unary(tree, bindings)) == bindings
  {
  }

  // ---------------------------------------------------------------------
  // AND / OR
  // ---------------------------------------------------------------------

  /**
   * `a && b` is true when both are true: the when-true lists are united;
   * for error recovery the when-false lists are intersected. OR is the
   * mirror image. Every other tag yields the sentinel.
   */
  function Binary(tree: Tree, lhs: MatchBindings, rhs: MatchBindings): (r: MatchBindings)
    ensures r.EMPTY? <==> tree.tag != AND && tree.tag != OR
  {
    match tree.tag
    case AND =>
      MatchBindings(lhs.WhenTrue() + rhs.WhenTrue(), Intersect(lhs.WhenFalse(), rhs.WhenFalse()))
    case OR =>
      MatchBindings(Intersect(lhs.WhenTrue(), rhs.WhenTrue()), lhs.WhenFalse() + rhs.WhenFalse())
    case _ => EMPTY
  }

  /** Some element of `list` collides with `v`. */
  ghost predicate CollidesWithSome(list: seq<BindingSymbol>, v: BindingSymbol)
  {
    exists v1 :: v1 in list && Collides(v1, v)
  }

  /**
   * Membership, both ways. AND is true with a binding exactly when either
   * operand is true with it; it is false with one exactly when the right
   * operand is false with it and the left operand is false with a binding
   * of the same name, neither flagged as clashing. OR is the mirror image.
   */
  lemma BinaryMembership(tree: Tree, lhs: MatchBindings, rhs: MatchBindings, v: BindingSymbol)
    ensures tree.tag == AND ==>
      (v in Binary(tree, lhs, rhs).WhenTrue() <==> v in lhs.WhenTrue() || v in rhs.WhenTrue()) &&
      (v in Binary(tree, lhs, rhs).WhenFalse() <==> v in rhs.WhenFalse() && CollidesWithSome(lhs.WhenFalse(), v))
    ensures tree.tag == OR ==>
      (v in Binary(tree, lhs, rhs).WhenTrue() <==> v in rhs.WhenTrue() && CollidesWithSome(lhs.WhenTrue(), v)) &&
      (v in Binary(tree, lhs, rhs).WhenFalse() <==> v in lhs.WhenFalse() || v in rhs.WhenFalse())
  {
    IntersectMembership(lhs.WhenFalse(), rhs.WhenFalse(), v);
    IntersectMembership(lhs.WhenTrue(), rhs.WhenTrue(), v);
  }

  /** The errors `binary` reports: those of its union and of its intersection. */
  function BinaryErrors(tree: Tree, lhs: MatchBindings, rhs: MatchBindings): (n: nat)
    ensures tree.tag != AND && tree.tag != OR ==> n == 0
  {
    match tree.tag
    case AND =>
      UnionErrors(lhs.WhenTrue(), [rhs.WhenTrue()]) + |Intersect(lhs.WhenFalse(), rhs.WhenFalse())|
    case OR =>
      |Intersect(lhs.WhenTrue(), rhs.WhenTrue())| + UnionErrors(lhs.WhenFalse(), [rhs.WhenFalse()])
    case _ => 0
  }

  /** No element of `a` collides with an element of `b`. */
  ghost predicate NoCommonBinding(a: seq<BindingSymbol>, b: seq<BindingSymbol>)
  {
    forall v1, v2 :: v1 in a && v2 in b ==> !Collides(v1, v2)
  }

  /**
   * AND reports nothing exactly when the right when-true list adds no name
   * already bound (or repeated within it) and the when-false lists share
   * no name; OR likewise with the roles of the lists exchanged.
   */
  lemma BinaryReportsNothingIff(tree: Tree, lhs: MatchBindings, rhs: MatchBindings)
    ensures tree.tag == AND ==>
      (BinaryErrors(tree, lhs, rhs) == 0 <==>
         NoNewCollision(lhs.WhenTrue() + rhs.WhenTrue(), |lhs.WhenTrue()|) &&
         NoCommonBinding(lhs.WhenFalse(), rhs.WhenFalse()))
    ensures tree.tag == OR ==>
      (BinaryErrors(tree, lhs, rhs) == 0 <==>
         NoCommonBinding(lhs.WhenTrue(), rhs.WhenTrue()) &&
         NoNewCollision(lhs.WhenFalse() + rhs.WhenFalse(), |lhs.WhenFalse()|))
  {
    ConcatSmall(lhs.WhenTrue(), rhs.WhenTrue(), []);
    ConcatSmall(lhs.WhenFalse(), rhs.WhenFalse(), []);
    UnionErrorsZeroIff(lhs.WhenTrue(), [rhs.WhenTrue()]);
    UnionErrorsZeroIff(lhs.WhenFalse(), [rhs.WhenFalse()]);
    IntersectEmptyIff(lhs.WhenFalse(), rhs.WhenFalse());
    IntersectEmptyIff(lhs.WhenTrue(), rhs.WhenTrue());
  }

  /**
   * When AND or OR reports nothing and the left operand's lists have
   * distinct names, so do the lists of the result; the intersected list is
   * then empty.
   */
  lemma BinaryKeepsDistinct(tree: Tree, lhs: MatchBindings, rhs: MatchBindings)
    requires DistinctNames(lhs.WhenTrue()) && DistinctNames(lhs.WhenFalse())
    requires BinaryErrors(tree, lhs, rhs) == 0
    ensures DistinctNames(Binary(tree, lhs, rhs).WhenTrue())
    ensures DistinctNames(Binary(tree, lhs, rhs).WhenFalse())
    ensures tree.tag == AND ==> Binary(tree, lhs, rhs).WhenFalse() == []
    ensures tree.tag == OR ==> Binary(tree, lhs, rhs).WhenTrue() == []
  {
    var r := Binary(tree, lhs, rhs);
    match tree.tag
    case AND =>
      assert UnionErrors(lhs.WhenTrue(), [rhs.WhenTrue()]) == 0;
      UnionKeepsDistinct(lhs.WhenTrue(), [rhs.WhenTrue()]);
      ConcatSmall(lhs.WhenTrue(), rhs.WhenTrue(), []);
      assert r.WhenTrue() == lhs.WhenTrue() + rhs.WhenTrue();
      assert r.WhenFalse() == [];
    case OR =>
      assert UnionErrors(lhs.WhenFalse(), [rhs.WhenFalse()]) == 0;
      UnionKeepsDistinct(lhs.WhenFalse(), [rhs.WhenFalse()]);
      ConcatSmall(lhs.WhenFalse(), rhs.WhenFalse(), []);
      assert r.WhenFalse() == lhs.WhenFalse() + rhs.WhenFalse();
      assert r.WhenTrue() == [];
    case _ =>
  }

  /**
   * De Morgan at the level of bindings: `a && b` has the bindings of
   * `!(!a || !b)`, and `a || b` those of `!(!a && !b)`, with the same
   * number of errors, for all operands.
   */
  lemma BinaryDeMorgan(and: Tree, or: Tree, not: Tree, a: MatchBindings, b: MatchBindings)
    requires and.tag == AND && or.tag == OR && not.tag == NOT
    ensures Binary(and, a, b) == Unary(not, Binary(or, Unary(not, a), Unary(not, b)))
    ensures BinaryErrors(and, a, b) == BinaryErrors(or, Unary(not, a), Unary(not, b))
    ensures Binary(or, a, b) == Unary(not, Binary(and, Unary(not, a), Unary(not, b)))
    ensures BinaryErrors(or, a, b) == BinaryErrors(and, Unary(not, a), Unary(not, b))
  {
  }

  /**
   * Operands without bindings give a result without bindings and no error;
   * for AND and OR that result is a new pair, not the sentinel.
   */
  lemma BinaryOfNoBindings(tree: Tree, lhs: MatchBindings, rhs: MatchBindings)
    requires lhs.HasNoBindings() && rhs.HasNoBindings()
    ensures Binary(tree, lhs, rhs).HasNoBindings()
    ensures BinaryErrors(tree, lhs, rhs) == 0
  {
    var none: seq<BindingSymbol> := [];
    UnionOfEmptyOperands(none, [none]);
  }

  /** `a instanceof T t && b instanceof U u` binds `t` then `u` when true, without error. */
  lemma BinaryAndOfTwoTests(tree: Tree, t: BindingSymbol, u: BindingSymbol)
    requires tree.tag == AND && t.name != u.name
    ensures Binary(tree, MatchBindings([t], []), MatchBindings([u], [])) == MatchBindings([t, u], [])
    ensures BinaryErrors(tree, MatchBindings([t], []), MatchBindings([u], [])) == 0
  {
    BinaryReportsNothingIff(tree, MatchBindings([t], []), MatchBindings([u], []));
    assert NoNewCollision([t] + [u], 1);
  }

  /** `a instanceof T t || b instanceof U u` binds nothing either way, without error. */
  lemma BinaryOrOfTwoTests(tree: Tree, t: BindingSymbol, u: BindingSymbol)
    requires tree.tag == OR && t.name != u.name
    ensures Binary(tree, MatchBindings([t], []), MatchBindings([u], [])) == MatchBindings([], [])
    ensures BinaryErrors(tree, MatchBindings([t], []), MatchBindings([u], [])) == 0
  {
    IntersectEmptyIff([t], [u]);
    BinaryReportsNothingIff(tree, MatchBindings([t], []), MatchBindings([u], []));
    assert NoNewCollision([] + [], 0);
  }

  // ---------------------------------------------------------------------
  // ?:
  // ---------------------------------------------------------------------

  /**
   * One outcome of `x ? y : z`, from the condition's two lists `xT`, `xF`
   * and the branches' lists `y`, `z` for that outcome: union(y*z, xT*z, xF*y),
   * where * is intersection.
   */
  function Outcome(xT: seq<BindingSymbol>, xF: seq<BindingSymbol>, y: seq<BindingSymbol>, z: seq<BindingSymbol>): (r: seq<BindingSymbol>)
    ensures z == [] ==> r == Intersect(xF, y)
    ensures y == [] ==> r == Intersect(xT, z)
  {
    Intersect(y, z) + Intersect(xT, z) + Intersect(xF, y)
  }

  /**
   * The errors of one outcome: one per element of its three intersections,
   * then those of its union. Each binding of the outcome stands for at least
   * one of them.
   */
  function OutcomeErrors(xT: seq<BindingSymbol>, xF: seq<BindingSymbol>, y: seq<BindingSymbol>, z: seq<BindingSymbol>): (r: nat)
    ensures r >= |Outcome(xT, xF, y, z)|
  {
    |Intersect(xT, z)| + |Intersect(xF, y)| + |Intersect(y, z)|
    + UnionErrors(Intersect(y, z), [Intersect(xT, z), Intersect(xF, y)])
  }

  /**
   * Membership, both ways: an outcome binds `v` exactly when `z` binds it
   * and `y` or the condition when true binds the same name, or `y` binds it
   * and the condition when false binds the same name (nothing clash-flagged).
   */
  lemma OutcomeMembership(xT: seq<BindingSymbol>, xF: seq<BindingSymbol>, y: seq<BindingSymbol>, z: seq<BindingSymbol>, v: BindingSymbol)
    ensures v in Outcome(xT, xF, y, z) <==>
      (v in z && (CollidesWithSome(y, v) || CollidesWithSome(xT, v))) || (v in y && CollidesWithSome(xF, v))
  {
    IntersectMembership(y, z, v);
    IntersectMembership(xT, z, v);
    IntersectMembership(xF, y, v);
  }

  /**
   * `x ? y : z`: when true, the outcome over the branches' when-true lists;
   * when false, the outcome over their when-false lists; three sentinels
   * give the sentinel.
   */
  function Conditional(cond: MatchBindings, t: MatchBindings, f: MatchBindings): (r: MatchBindings)
    ensures r.EMPTY? <==> cond.EMPTY? && t.EMPTY? && f.EMPTY?
  {
    if cond == EMPTY && t == EMPTY && f == EMPTY then EMPTY
    else
      MatchBindings(Outcome(cond.WhenTrue(), cond.WhenFalse(), t.WhenTrue(), f.WhenTrue()),
                    Outcome(cond.WhenTrue(), cond.WhenFalse(), t.WhenFalse(), f.WhenFalse()))
  }

  /**
   * Membership, both ways, for the whole conditional. In particular every
   * binding it keeps comes from a branch's list for the same outcome.
   */
  lemma ConditionalMembership(cond: MatchBindings, t: MatchBindings, f: MatchBindings, v: BindingSymbol)
    ensures v in Conditional(cond, t, f).WhenTrue() <==>
      (v in f.WhenTrue() && (CollidesWithSome(t.WhenTrue(), v) || CollidesWithSome(cond.WhenTrue(), v))) ||
      (v in t.WhenTrue() && CollidesWithSome(cond.WhenFalse(), v))
    ensures v in Conditional(cond, t, f).WhenFalse() <==>
      (v in f.WhenFalse() && (CollidesWithSome(t.WhenFalse(), v) || CollidesWithSome(cond.WhenTrue(), v))) ||
      (v in t.WhenFalse() && CollidesWithSome(cond.WhenFalse(), v))
  {
    OutcomeMembership(cond.WhenTrue(), cond.WhenFalse(), t.WhenTrue(), f.WhenTrue(), v);
    OutcomeMembership(cond.WhenTrue(), cond.WhenFalse(), t.WhenFalse(), f.WhenFalse(), v);
  }

  /** The errors `conditional` reports: those of its two outcomes. */
  function ConditionalErrors(cond: MatchBindings, t: MatchBindings, f: MatchBindings): (n: nat)
    ensures cond.EMPTY? && t.EMPTY? && f.EMPTY? ==> n == 0
  {
    if cond == EMPTY && t == EMPTY && f == EMPTY then 0
    else
      OutcomeErrors(cond.WhenTrue(), cond.WhenFalse(), t.WhenTrue(), f.WhenTrue())
      + OutcomeErrors(cond.WhenTrue(), cond.WhenFalse(), t.WhenFalse(), f.WhenFalse())
  }

  /**
   * Every binding a conditional passes on is paid for by an error: it
   * reports at least as many errors as its two lists hold together. In
   * particular a conditional that reports nothing passes on nothing.
   */
  lemma ConditionalErrorsCoverBindings(cond: MatchBindings, t: MatchBindings, f: MatchBindings)
    ensures ConditionalErrors(cond, t, f) >= |Conditional(cond, t, f).WhenTrue()| + |Conditional(cond, t, f).WhenFalse()|
    ensures ConditionalErrors(cond, t, f) == 0 ==> Conditional(cond, t, f).HasNoBindings()
  {
  }

  /**
   * Skipping the work when all three inputs are the sentinel changes
   * nothing observable: inputs without bindings, sentinel or not, give a
   * result without bindings and no error.
   */
  lemma ConditionalOfNoBindings(cond: MatchBindings, t: MatchBindings, f: MatchBindings)
    requires cond.HasNoBindings() && t.HasNoBindings() && f.HasNoBindings()
    ensures Conditional(cond, t, f).HasNoBindings()
    ensures ConditionalErrors(cond, t, f) == 0
  {
    var none: seq<BindingSymbol> := [];
    UnionOfEmptyOperands(none, [none, none]);
  }

  /**
   * `c ? (a instanceof T y) : (b instanceof T y)` where `c` binds `x` when
   * false: `y` is bound when the whole is true, and the intersection of the
   * two branches' `y` reports one error.
   */
  lemma ConditionalSameBindingInBranches(x: BindingSymbol, y: BindingSymbol)
    requires x.name != y.name && !y.clash
    ensures Conditional(MatchBindings([], [x]), MatchBindings([y], []), MatchBindings([y], [])) == MatchBindings([y], [])
    ensures ConditionalErrors(MatchBindings([], [x]), MatchBindings([y], []), MatchBindings([y], [])) == 1
  {
    var cond, t, f := MatchBindings([], [x]), MatchBindings([y], []), MatchBindings([y], []);
    var none: seq<BindingSymbol> := [];
    IntersectSingletons(y);
    IntersectEmptyIff([x], [y]);
    IntersectEmptyIff([x], none);
    assert Intersect(none, [y]) == [] && Intersect(none, none) == [];
    UnionOfEmptyOperands([y], [none, none]);
    UnionOfEmptyOperands(none, [none, none]);
  }

  /**
   * As above but with `c` binding `y` itself when false: `y` is bound twice
   * when the whole is true, with three errors (two intersections and the
   * union that joins their results).
   */
  lemma ConditionalDuplicateAcrossCondition(y: BindingSymbol)
    requires !y.clash
    ensures Conditional(MatchBindings([], [y]), MatchBindings([y], []), MatchBindings([y], [])) == MatchBindings([y, y], [])
    ensures ConditionalErrors(MatchBindings([], [y]), MatchBindings([y], []), MatchBindings([y], [])) == 3
  {
    var cond, t, f := MatchBindings([], [y]), MatchBindings([y], []), MatchBindings([y], []);
    var none: seq<BindingSymbol> := [];
    IntersectSingletons(y);
    IntersectEmptyIff([y], none);
    assert Intersect(none, [y]) == [] && Intersect(none, none) == [];
    assert UnionErrors([y], [none, [y]]) == 1 by {
      UnionErrorsSnoc([y], [none], [y]);
      assert [none] + [[y]] == [none, [y]];
      UnionOfEmptyOperands([y], [none]);
      UnionSingletons(y);
      ConcatSmall([y], [], []);
      UnionErrorsSnoc([y], [], [y]);
    }
    UnionOfEmptyOperands(none, [none, none]);
  }

  // ---------------------------------------------------------------------
  // The allow-list
  // ---------------------------------------------------------------------

  /**
   * The bindings a node passes on to its parent: unchanged through NOT,
   * AND, OR, a binding pattern, parentheses, a type test and (for error
   * recovery) a conditional; any other node stops them.
   */
  function FinishBindings(tree: Tree, bindings: MatchBindings): (r: MatchBindings)
    ensures !tree.tag.Other? ==> r == bindings
    ensures tree.tag.Other? ==> r == EMPTY
  {
    match tree.tag
    case NOT | AND | OR | BINDINGPATTERN | PARENS | TYPETEST | CONDEXPR => bindings
    case Other(_) => EMPTY
  }
}

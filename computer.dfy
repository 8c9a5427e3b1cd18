/**
 * The computer itself: an object holding the compiler's shared error log,
 * whose intersection and union walk their lists with nested loops (each
 * inner loop is a method of its own here) and report each duplicate to the
 * log as they meet it, and whose `binary` and `conditional` are built from
 * those two. Each method is proved to compute what the corresponding
 * function of BindingLists or Combinators computes and to leave in the log
 * exactly that function's number of errors, appended to what was there.
 */
module Computer {
  import opened BindingModel
  import opened BindingLists
  import Combinators

  class MatchBindingsComputer {
    /** The error sink shared with the rest of the compiler. */
    const log: Log

    constructor (log: Log)
      ensures this.log == log
    {
      this.log := log;
    }

    /**
     * Intersection's inner loop, for one `v1`: for every `v2` of `rhs`, when
     * the two collide, report an error and append `v2` to `list`.
     */
    method AppendMatching(pos: Position, list: seq<BindingSymbol>, v1: BindingSymbol, rhs: seq<BindingSymbol>)
      returns (list': seq<BindingSymbol>)
      modifies log
      ensures list' == list + Matching(v1, rhs)
      ensures log.diagnostics == old(log.diagnostics) + Reports(pos, |Matching(v1, rhs)|)
    {
      ghost var log0 := log.diagnostics;
      ghost var kept: seq<BindingSymbol> := [];
      list' := list;
      for j := 0 to |rhs|
        invariant kept == Matching(v1, rhs[..j])
        invariant list' == list + kept
        invariant log.diagnostics == log0 + Reports(pos, |kept|)
      {
        var v2 := rhs[j];
        assert rhs[..j + 1] == rhs[..j] + [v2];
        MatchingSnoc(v1, rhs[..j], v2);
        if v1.name == v2.name && !v1.clash && !v2.clash {
          ReportsSnoc(log0, pos, |kept|);
          log.Error(pos);
          assert list' + [v2] == list + (kept + [v2]);
          list', kept := list' + [v2], kept + [v2];
        }
      }
      assert rhs[..|rhs|] == rhs;
    }

    /**
     * For every `v1` of `lhs`, then every `v2` of `rhs`: when the two
     * collide, report an error and append `v2`.
     */
    method Intersection(pos: Position, lhs: seq<BindingSymbol>, rhs: seq<BindingSymbol>)
      returns (list: seq<BindingSymbol>)
      modifies log
      ensures list == Intersect(lhs, rhs)
      ensures log.diagnostics == old(log.diagnostics) + Reports(pos, |list|)
    {
      ghost var log0 := log.diagnostics;
      list := [];
      for i := 0 to |lhs|
        invariant list == Intersect(lhs[..i], rhs)
        invariant log.diagnostics == log0 + Reports(pos, |list|)
      {
        var v1 := lhs[i];
        ghost var list0 := list;
        list := AppendMatching(pos, list, v1, rhs);
        ReportsAppend(log0, pos, |list0|, |Matching(v1, rhs)|);
        assert lhs[..i + 1] == lhs[..i] + [v1];
        IntersectSnoc(lhs[..i], v1, rhs);
      }
      assert lhs[..|lhs|] == lhs;
    }

    /**
     * Union's innermost loop: report one error for every element of `list`
     * that collides with `v`.
     */
    method ReportCollisions(pos: Position, list: seq<BindingSymbol>, v: BindingSymbol)
      modifies log
      ensures log.diagnostics == old(log.diagnostics) + Reports(pos, CollisionCount(list, v))
    {
      ghost var log0 := log.diagnostics;
      for i := 0 to |list|
        invariant log.diagnostics == log0 + Reports(pos, CollisionCount(list[..i], v))
      {
        var ov := list[i];
        assert list[..i + 1] == list[..i] + [ov];
        CollisionCountSnoc(list[..i], ov, v);
        if ov.name == v.name && !ov.clash && !v.clash {
          ReportsSnoc(log0, pos, CollisionCount(list[..i], v));
          log.Error(pos);
        }
      }
      assert list[..|list|] == list;
    }

    /**
     * Union's middle loop, for one operand list: append every element of
     * `rhs` to `list` in turn, first reporting its collisions with what is
     * already there.
     */
    method AppendChecked(pos: Position, list: seq<BindingSymbol>, rhs: seq<BindingSymbol>)
      returns (list': seq<BindingSymbol>)
      modifies log
      ensures list' == list + rhs
      ensures log.diagnostics == old(log.diagnostics) + Reports(pos, AppendErrors(list, rhs))
    {
      ghost var log0 := log.diagnostics;
      list' := list;
      for j := 0 to |rhs|
        invariant list' == list + rhs[..j]
        invariant log.diagnostics == log0 + Reports(pos, AppendErrors(list, rhs[..j]))
      {
        var v := rhs[j];
        ReportCollisions(pos, list', v);
        ReportsAppend(log0, pos, AppendErrors(list, rhs[..j]), CollisionCount(list', v));
        assert rhs[..j + 1] == rhs[..j] + [v];
        AppendErrorsSnoc(list, rhs[..j], v);
        list' := list' + [v];
      }
      assert rhs[..|rhs|] == rhs;
    }

    /**
     * Start from `lhs`; append every element of every list of `rhss` in
     * turn, first reporting an error for each element already in the list
     * that it collides with.
     */
    method Union(pos: Position, lhs: seq<BindingSymbol>, rhss: seq<seq<BindingSymbol>>)
      returns (list: seq<BindingSymbol>)
      modifies log
      ensures list == lhs + Concat(rhss)
      ensures log.diagnostics == old(log.diagnostics) + Reports(pos, UnionErrors(lhs, rhss))
    {
      ghost var log0 := log.diagnostics;
      list := lhs;
      for k := 0 to |rhss|
        invariant list == lhs + Concat(rhss[..k])
        invariant log.diagnostics == log0 + Reports(pos, UnionErrors(lhs, rhss[..k]))
      {
        var rhs := rhss[k];
        ghost var list0 := list;
        list := AppendChecked(pos, list, rhs);
        ReportsAppend(log0, pos, UnionErrors(lhs, rhss[..k]), AppendErrors(list0, rhs));
        assert rhss[..k + 1] == rhss[..k] + [rhs];
        ConcatSnoc(rhss[..k], rhs);
        UnionErrorsSnoc(lhs, rhss[..k], rhs);
      }
      assert rhss[..|rhss|] == rhss;
    }

    /** AND unites the when-true lists and intersects the when-false lists; OR the reverse. */
    method Binary(tree: Tree, lhs: MatchBindings, rhs: MatchBindings) returns (r: MatchBindings)
      modifies log
      ensures r == Combinators.Binary(tree, lhs, rhs)
      ensures log.diagnostics == old(log.diagnostics) + Reports(tree.pos, Combinators.BinaryErrors(tree, lhs, rhs))
    {
      ghost var l0 := log.diagnostics;
      match tree.tag {
        case AND =>
          var whenTrue := Union(tree.pos, lhs.WhenTrue(), [rhs.WhenTrue()]);
          ghost var l1 := log.diagnostics;
          var whenFalse := Intersection(tree.pos, lhs.WhenFalse(), rhs.WhenFalse());
          ConcatSmall(lhs.WhenTrue(), rhs.WhenTrue(), []);
          ReportsChain(l0, l1, log.diagnostics, tree.pos, UnionErrors(lhs.WhenTrue(), [rhs.WhenTrue()]), |whenFalse|,
                       Combinators.BinaryErrors(tree, lhs, rhs));
          r := MatchBindings(whenTrue, whenFalse);
        case OR =>
          var whenTrue := Intersection(tree.pos, lhs.WhenTrue(), rhs.WhenTrue());
          ghost var l1 := log.diagnostics;
          var whenFalse := Union(tree.pos, lhs.WhenFalse(), [rhs.WhenFalse()]);
          ConcatSmall(lhs.WhenFalse(), rhs.WhenFalse(), []);
          ReportsChain(l0, l1, log.diagnostics, tree.pos, |whenTrue|, UnionErrors(lhs.WhenFalse(), [rhs.WhenFalse()]),
                       Combinators.BinaryErrors(tree, lhs, rhs));
          r := MatchBindings(whenTrue, whenFalse);
        case _ =>
          assert log.diagnostics + Reports(tree.pos, 0) == log.diagnostics;
          r := EMPTY;
      }
    }

    /**
     * `x ? y : z`: the sentinel when all three inputs are the sentinel;
     * otherwise the six intersections, then the two unions.
     */
    method Conditional(tree: Tree, condBindings: MatchBindings, trueBindings: MatchBindings, falseBindings: MatchBindings)
      returns (r: MatchBindings)
      modifies log
      ensures r == Combinators.Conditional(condBindings, trueBindings, falseBindings)
      ensures log.diagnostics == old(log.diagnostics)
                                 + Reports(tree.pos, Combinators.ConditionalErrors(condBindings, trueBindings, falseBindings))
    {
      if condBindings == EMPTY && trueBindings == EMPTY && falseBindings == EMPTY {
        assert log.diagnostics + Reports(tree.pos, 0) == log.diagnostics;
        return EMPTY;
      }
      var pos := tree.pos;
      var xT, xF := condBindings.WhenTrue(), condBindings.WhenFalse();
      var yT, yF := trueBindings.WhenTrue(), trueBindings.WhenFalse();
      var zT, zF := falseBindings.WhenTrue(), falseBindings.WhenFalse();
      ghost var l0 := log.diagnostics;
      var xTzT := Intersection(pos, xT, zT);
      ghost var l1 := log.diagnostics;
      var xFyT := Intersection(pos, xF, yT);
      ghost var l2 := log.diagnostics;
      var yTzT := Intersection(pos, yT, zT);
      ghost var l3 := log.diagnostics;
      var xTzF := Intersection(pos, xT, zF);
      ghost var l4 := log.diagnostics;
      var xFyF := Intersection(pos, xF, yF);
      ghost var l5 := log.diagnostics;
      var yFzF := Intersection(pos, yF, zF);
      ghost var l6 := log.diagnostics;
      var whenTrue := Union(pos, yTzT, [xTzT, xFyT]);
      ghost var l7 := log.diagnostics;
      var whenFalse := Union(pos, yFzF, [xTzF, xFyF]);
      ConcatSmall(yTzT, xTzT, xFyT);
      ConcatSmall(yFzF, xTzF, xFyF);
      ReportsChain8(l0, l1, l2, l3, l4, l5, l6, l7, log.diagnostics, tree.pos,
                    |xTzT|, |xFyT|, |yTzT|, |xTzF|, |xFyF|, |yFzF|,
                    UnionErrors(yTzT, [xTzT, xFyT]), UnionErrors(yFzF, [xTzF, xFyF]),
                    Combinators.ConditionalErrors(condBindings, trueBindings, falseBindings));
      r := MatchBindings(whenTrue, whenFalse);
    }
  }
}

/**
 * The two list primitives of the algebra, as functions of the lists they
 * combine: the restricted intersection (which also reports one error per
 * element it keeps) and the disjoint union (which reports one error per
 * collision between a new element and one already in the list), together
 * with the number of errors each reports and the lemmas that characterise
 * them.
 */
module BindingLists {
  import opened BindingModel

  // ---------------------------------------------------------------------
  // Intersection
  // ---------------------------------------------------------------------

  /**
   * The elements of `rhs`, in order, that collide with `v1`: what one run of
   * intersection's inner loop appends.
   */
  function Matching(v1: BindingSymbol, rhs: seq<BindingSymbol>): (r: seq<BindingSymbol>)
    ensures |r| <= |rhs|
  {
    if rhs == [] then []
    else
      var last := rhs[|rhs| - 1];
      Matching(v1, rhs[..|rhs| - 1]) + (if Collides(v1, last) then [last] else [])
  }

  /**
   * The restricted intersection: for every `v1` of `lhs` in turn, the
   * elements `v2` of `rhs` colliding with it, in order. Each kept element
   * stands for one reported error.
   */
  function Intersect(lhs: seq<BindingSymbol>, rhs: seq<BindingSymbol>): (r: seq<BindingSymbol>)
    ensures rhs == [] ==> r == []
  {
    if lhs == [] then []
    else Intersect(lhs[..|lhs| - 1], rhs) + Matching(lhs[|lhs| - 1], rhs)
  }

  /** Scanning one more element of `rhs` keeps it exactly when it collides with `v1`. */
  lemma MatchingSnoc(v1: BindingSymbol, rhs: seq<BindingSymbol>, v2: BindingSymbol)
    ensures Matching(v1, rhs + [v2]) == Matching(v1, rhs) + if Collides(v1, v2) then [v2] else []
  {
    assert (rhs + [v2])[..|rhs|] == rhs;
  }

  /** Matching distributes over concatenation of the scanned list. */
  lemma {:induction false} MatchingAppend(v1: BindingSymbol, a: seq<BindingSymbol>, b: seq<BindingSymbol>)
    ensures Matching(v1, a + b) == Matching(v1, a) + Matching(v1, b)
    decreases |b|
  {
    if b == [] {
      assert a + b == a;
    } else {
      var b' := b[..|b| - 1];
      assert (a + b)[..|a + b| - 1] == a + b';
      MatchingAppend(v1, a, b');
    }
  }

  /** Matching keeps exactly the elements of `rhs` that collide with `v1`. */
  lemma {:induction false} MatchingMembership(v1: BindingSymbol, rhs: seq<BindingSymbol>, v: BindingSymbol)
    ensures v in Matching(v1, rhs) <==> v in rhs && Collides(v1, v)
    decreases |rhs|
  {
    if rhs != [] {
      var rhs', last := rhs[..|rhs| - 1], rhs[|rhs| - 1];
      assert rhs == rhs' + [last];
      MatchingSnoc(v1, rhs', last);
      MatchingMembership(v1, rhs', v);
    }
  }

  /** Intersection with one more element on the left adds that element's matches at the end. */
  lemma IntersectSnoc(lhs: seq<BindingSymbol>, v1: BindingSymbol, rhs: seq<BindingSymbol>)
    ensures Intersect(lhs + [v1], rhs) == Intersect(lhs, rhs) + Matching(v1, rhs)
  {
    assert (lhs + [v1])[..|lhs|] == lhs;
  }

  /** Intersection walks `lhs` in order: it distributes over concatenation of its left operand. */
  lemma {:induction false} IntersectAppend(a: seq<BindingSymbol>, b: seq<BindingSymbol>, rhs: seq<BindingSymbol>)
    ensures Intersect(a + b, rhs) == Intersect(a, rhs) + Intersect(b, rhs)
    decreases |b|
  {
    if b == [] {
      assert a + b == a;
    } else {
      var b', last := b[..|b| - 1], b[|b| - 1];
      DropLastOfAppend(a, b);
      IntersectAppend(a, b', rhs);
      AppendAssociative(Intersect(a, rhs), Intersect(b', rhs), Matching(last, rhs));
    }
  }

  /** Dropping the last element of `a + b`, for a non-empty `b`, drops it from `b`. */
  lemma DropLastOfAppend(a: seq<BindingSymbol>, b: seq<BindingSymbol>)
    requires b != []
    ensures (a + b)[..|a + b| - 1] == a + b[..|b| - 1]
    ensures (a + b)[|a + b| - 1] == b[|b| - 1]
  {
  }

  /** Appending lists is associative. */
  lemma AppendAssociative(x: seq<BindingSymbol>, y: seq<BindingSymbol>, z: seq<BindingSymbol>)
    ensures x + y + z == x + (y + z)
  {
  }

  /**
   * Membership, both ways: `v` is in the intersection exactly when `v` is an
   * element of `rhs` that collides with some element of `lhs`.
   */
  lemma {:induction false} IntersectMembership(lhs: seq<BindingSymbol>, rhs: seq<BindingSymbol>, v: BindingSymbol)
    ensures v in Intersect(lhs, rhs) <==> v in rhs && exists v1 :: v1 in lhs && Collides(v1, v)
    decreases |lhs|
  {
    if lhs != [] {
      var lhs', last := lhs[..|lhs| - 1], lhs[|lhs| - 1];
      assert lhs == lhs' + [last];
      IntersectSnoc(lhs', last, rhs);
      IntersectMembership(lhs', rhs, v);
      MatchingMembership(last, rhs, v);
      assert forall v1 :: v1 in lhs <==> v1 in lhs' || v1 == last;
    }
  }

  /**
   * The intersection is empty exactly when no element of `lhs` collides with
   * an element of `rhs`: when an operand is empty, when no names are shared,
   * or when every pair that shares a name has a clash-flagged member.
   */
  lemma IntersectEmptyIff(lhs: seq<BindingSymbol>, rhs: seq<BindingSymbol>)
    ensures Intersect(lhs, rhs) == [] <==> forall v1, v2 :: v1 in lhs && v2 in rhs ==> !Collides(v1, v2)
  {
    var r := Intersect(lhs, rhs);
    if r != [] {
      IntersectMembership(lhs, rhs, r[0]);
    }
    if v1, v2 :| v1 in lhs && v2 in rhs && Collides(v1, v2) {
      IntersectMembership(lhs, rhs, v2);
    }
  }

  /** `intersection([x], [x])` keeps `x` (one error) unless `x` is clash-flagged. */
  lemma IntersectSingletons(x: BindingSymbol)
    ensures Intersect([x], [x]) == if x.clash then [] else [x]
  {
    assert [x][..0] == [];
  }

  /** The row of index pairs (i, j) for which `v1`, standing at index i, collides with `rhs[j]`. */
  ghost function MatchingPairs(i: int, v1: BindingSymbol, rhs: seq<BindingSymbol>): set<(int, int)>
  {
    set j | 0 <= j < |rhs| && Collides(v1, rhs[j]) :: (i, j)
  }

  /** All index pairs (i, j) for which `lhs[i]` collides with `rhs[j]`. */
  ghost function IntersectPairs(lhs: seq<BindingSymbol>, rhs: seq<BindingSymbol>): set<(int, int)>
  {
    set i, j | 0 <= i < |lhs| && 0 <= j < |rhs| && Collides(lhs[i], rhs[j]) :: (i, j)
  }

  /** The number of elements Matching keeps is the number of colliding index pairs in its row. */
  lemma {:induction false} MatchingCountsPairs(i: int, v1: BindingSymbol, rhs: seq<BindingSymbol>)
    ensures |Matching(v1, rhs)| == |MatchingPairs(i, v1, rhs)|
    decreases |rhs|
  {
    if rhs != [] {
      var n := |rhs|;
      var rhs' := rhs[..n - 1];
      MatchingCountsPairs(i, v1, rhs');
      var last := if Collides(v1, rhs[n - 1]) then {(i, n - 1)} else {};
      assert MatchingPairs(i, v1, rhs) == MatchingPairs(i, v1, rhs') + last by {
        forall p | p in MatchingPairs(i, v1, rhs)
          ensures p in MatchingPairs(i, v1, rhs') + last
        {
          var j :| 0 <= j < n && Collides(v1, rhs[j]) && p == (i, j);
          if j < n - 1 {
            assert rhs'[j] == rhs[j];
          }
        }
      }
      assert (i, n - 1) !in MatchingPairs(i, v1, rhs');
    }
  }

  /**
   * The number of elements the intersection keeps, which is the number of
   * errors it reports, is the number of colliding index pairs of its operands.
   */
  lemma {:induction false} IntersectCountsPairs(lhs: seq<BindingSymbol>, rhs: seq<BindingSymbol>)
    ensures |Intersect(lhs, rhs)| == |IntersectPairs(lhs, rhs)|
    decreases |lhs|
  {
    if lhs != [] {
      var n := |lhs|;
      var lhs' := lhs[..n - 1];
      IntersectCountsPairs(lhs', rhs);
      MatchingCountsPairs(n - 1, lhs[n - 1], rhs);
      var row := MatchingPairs(n - 1, lhs[n - 1], rhs);
      assert IntersectPairs(lhs, rhs) == IntersectPairs(lhs', rhs) + row by {
        forall p | p in IntersectPairs(lhs, rhs)
          ensures p in IntersectPairs(lhs', rhs) + row
        {
          var i, j :| 0 <= i < n && 0 <= j < |rhs| && Collides(lhs[i], rhs[j]) && p == (i, j);
          if i < n - 1 {
            assert lhs'[i] == lhs[i];
          }
        }
      }
      assert IntersectPairs(lhs', rhs) * row == {};
    }
  }

  // ---------------------------------------------------------------------
  // Union
  // ---------------------------------------------------------------------

  /** The sum of the lengths of the lists. */
  function TotalLength(rhss: seq<seq<BindingSymbol>>): nat
  {
    if rhss == [] then 0 else TotalLength(rhss[..|rhss| - 1]) + |rhss[|rhss| - 1]|
  }

  /** The lists, one after another. */
  function Concat(rhss: seq<seq<BindingSymbol>>): (r: seq<BindingSymbol>)
    ensures |r| == TotalLength(rhss)
  {
    if rhss == [] then [] else Concat(rhss[..|rhss| - 1]) + rhss[|rhss| - 1]
  }

  /** Concat of a concatenation of operand lists. */
  lemma {:induction false} ConcatAppend(a: seq<seq<BindingSymbol>>, b: seq<seq<BindingSymbol>>)
    ensures Concat(a + b) == Concat(a) + Concat(b)
    decreases |b|
  {
    if b == [] {
      assert a + b == a;
    } else {
      var b' := b[..|b| - 1];
      assert (a + b)[..|a + b| - 1] == a + b';
      assert (a + b)[|a + b| - 1] == b[|b| - 1];
      ConcatAppend(a, b');
    }
  }

  /** The union of `x` with one operand list, or with two. */
  lemma ConcatSmall(x: seq<BindingSymbol>, a: seq<BindingSymbol>, b: seq<BindingSymbol>)
    ensures Concat([a]) == a
    ensures x + Concat([a]) == x + a
    ensures x + Concat([a, b]) == x + a + b
  {
    assert [a][..0] == [];
    assert [a, b][..1] == [a];
    assert Concat([a, b]) == a + b;
    assert x + (a + b) == x + a + b;
  }

  /**
   * The number of elements of `list` that collide with `v`: how many errors
   * union's innermost loop reports before appending `v`.
   */
  function CollisionCount(list: seq<BindingSymbol>, v: BindingSymbol): (r: nat)
    ensures r <= |list|
  {
    if list == [] then 0
    else CollisionCount(list[..|list| - 1], v) + (if Collides(list[|list| - 1], v) then 1 else 0)
  }

  /** No error is reported for `v` exactly when nothing in `list` collides with it. */
  lemma {:induction false} CollisionCountZeroIff(list: seq<BindingSymbol>, v: BindingSymbol)
    ensures CollisionCount(list, v) == 0 <==> forall i :: 0 <= i < |list| ==> !Collides(list[i], v)
    decreases |list|
  {
    if list != [] {
      var n := |list|;
      CollisionCountZeroIff(list[..n - 1], v);
      assert forall i :: 0 <= i < n - 1 ==> list[..n - 1][i] == list[i];
    }
  }

  /**
   * The errors reported while the elements of `rhs` are appended one by one
   * to `list`, each checked against everything already there (including the
   * elements of `rhs` appended before it).
   */
  function AppendErrors(list: seq<BindingSymbol>, rhs: seq<BindingSymbol>): (r: nat)
    ensures r <= |rhs| * (|list| + |rhs|)
  {
    if rhs == [] then 0
    else
      var rhs' := rhs[..|rhs| - 1];
      QuadraticStep(|list|, |rhs'|, 1, AppendErrors(list, rhs'), CollisionCount(list + rhs', rhs[|rhs| - 1]));
      AppendErrors(list, rhs') + CollisionCount(list + rhs', rhs[|rhs| - 1])
  }

  /**
   * The errors reported by `union(lhs, rhss[0], ..., rhss[k-1])`: the operand
   * lists are appended in turn to the list built so far.
   */
  function UnionErrors(lhs: seq<BindingSymbol>, rhss: seq<seq<BindingSymbol>>): (r: nat)
    ensures r <= TotalLength(rhss) * (|lhs| + TotalLength(rhss))
  {
    if rhss == [] then 0
    else
      var rhss' := rhss[..|rhss| - 1];
      QuadraticStep(|lhs|, TotalLength(rhss'), |rhss[|rhss| - 1]|,
                    UnionErrors(lhs, rhss'), AppendErrors(lhs + Concat(rhss'), rhss[|rhss| - 1]));
      UnionErrors(lhs, rhss') + AppendErrors(lhs + Concat(rhss'), rhss[|rhss| - 1])
  }

  /**
   * The arithmetic behind the error bounds: `n` elements checked against at
   * most `l + n` predecessors each, then `k` more against at most `l + n + k`.
   */
  lemma QuadraticStep(l: nat, n: nat, k: nat, a: nat, b: nat)
    requires a <= n * (l + n)
    requires b <= k * (l + n + k)
    ensures a + b <= (n + k) * (l + n + k)
  {
    assert (n + k) * (l + n + k) == n * (l + n) + n * k + k * (l + n + k);
  }

  /** Appending one more element adds the collisions of that element with everything before it. */
  lemma AppendErrorsSnoc(list: seq<BindingSymbol>, rhs: seq<BindingSymbol>, v: BindingSymbol)
    ensures AppendErrors(list, rhs + [v]) == AppendErrors(list, rhs) + CollisionCount(list + rhs, v)
  {
    assert (rhs + [v])[..|rhs|] == rhs;
  }

  /** Checking `v` against one more element of the list. */
  lemma CollisionCountSnoc(list: seq<BindingSymbol>, ov: BindingSymbol, v: BindingSymbol)
    ensures CollisionCount(list + [ov], v) == CollisionCount(list, v) + if Collides(ov, v) then 1 else 0
  {
    assert (list + [ov])[..|list|] == list;
  }

  /** Concat of one more operand list. */
  lemma ConcatSnoc(rhss: seq<seq<BindingSymbol>>, rhs: seq<BindingSymbol>)
    ensures Concat(rhss + [rhs]) == Concat(rhss) + rhs
  {
    assert (rhss + [rhs])[..|rhss|] == rhss;
  }

  /** One more operand list adds the errors of appending it to everything before. */
  lemma UnionErrorsSnoc(lhs: seq<BindingSymbol>, rhss: seq<seq<BindingSymbol>>, rhs: seq<BindingSymbol>)
    ensures UnionErrors(lhs, rhss + [rhs]) == UnionErrors(lhs, rhss) + AppendErrors(lhs + Concat(rhss), rhs)
  {
    assert (rhss + [rhs])[..|rhss|] == rhss;
  }

  /** No element at index `from` or later collides with any element before it. */
  ghost predicate NoNewCollision(s: seq<BindingSymbol>, from: int)
  {
    forall i, j :: 0 <= i < j < |s| && from <= j ==> !Collides(s[i], s[j])
  }

  /** No two elements of `s` collide: the names not flagged as clashing are pairwise distinct. */
  ghost predicate DistinctNames(s: seq<BindingSymbol>)
  {
    NoNewCollision(s, 0)
  }

  /** The index pairs (i, j), i < j and `from` <= j, whose elements collide. */
  ghost function NewCollisions(s: seq<BindingSymbol>, from: int): set<(int, int)>
  {
    set i, j | 0 <= i < j < |s| && from <= j && Collides(s[i], s[j]) :: (i, j)
  }

  /** The pairs (i, j) for which `list[i]` collides with `v`, standing at index j. */
  ghost function CollisionPairs(list: seq<BindingSymbol>, v: BindingSymbol, j: int): set<(int, int)>
  {
    set i | 0 <= i < |list| && Collides(list[i], v) :: (i, j)
  }

  lemma {:induction false} CollisionCountCountsPairs(list: seq<BindingSymbol>, v: BindingSymbol, j: int)
    ensures CollisionCount(list, v) == |CollisionPairs(list, v, j)|
    decreases |list|
  {
    if list != [] {
      var n := |list|;
      var list' := list[..n - 1];
      CollisionCountCountsPairs(list', v, j);
      var last := if Collides(list[n - 1], v) then {(n - 1, j)} else {};
      assert CollisionPairs(list, v, j) == CollisionPairs(list', v, j) + last by {
        forall p | p in CollisionPairs(list, v, j)
          ensures p in CollisionPairs(list', v, j) + last
        {
          var i :| 0 <= i < n && Collides(list[i], v) && p == (i, j);
          if i < n - 1 {
            assert list'[i] == list[i];
          }
        }
      }
      assert (n - 1, j) !in CollisionPairs(list', v, j);
    }
  }

  /**
   * The colliding pairs of `s + [v]` that end at or after `from` are those of
   * `s` and those that end at `v`.
   */
  lemma NewCollisionsSnoc(s: seq<BindingSymbol>, v: BindingSymbol, from: int)
    requires 0 <= from <= |s|
    ensures NewCollisions(s + [v], from) == NewCollisions(s, from) + CollisionPairs(s, v, |s|)
    ensures NewCollisions(s, from) * CollisionPairs(s, v, |s|) == {}
  {
    var t := s + [v];
    var n := |t|;
    forall p | p in NewCollisions(t, from)
      ensures p in NewCollisions(s, from) + CollisionPairs(s, v, |s|)
    {
      var i, j :| 0 <= i < j < n && from <= j && Collides(t[i], t[j]) && p == (i, j);
      assert t[i] == s[i];
      if j < n - 1 {
        assert t[j] == s[j];
      }
    }
    forall p | p in NewCollisions(s, from) + CollisionPairs(s, v, |s|)
      ensures p in NewCollisions(t, from)
    {
      if p in CollisionPairs(s, v, |s|) {
        var i :| 0 <= i < |s| && Collides(s[i], v) && p == (i, |s|);
        assert t[i] == s[i] && t[|s|] == v;
      } else {
        var i, j :| 0 <= i < j < |s| && from <= j && Collides(s[i], s[j]) && p == (i, j);
        assert t[i] == s[i] && t[j] == s[j];
      }
    }
  }

  /**
   * Appending `rhs` to `list` reports exactly one error per colliding pair
   * whose later element belongs to `rhs`; pairs inside `list` are never checked.
   */
  lemma {:induction false} AppendErrorsCountsPairs(list: seq<BindingSymbol>, rhs: seq<BindingSymbol>)
    ensures AppendErrors(list, rhs) == |NewCollisions(list + rhs, |list|)|
    decreases |rhs|
  {
    if rhs == [] {
      assert list + rhs == list;
      assert NewCollisions(list, |list|) == {};
    } else {
      var rhs' := rhs[..|rhs| - 1];
      var v := rhs[|rhs| - 1];
      var s' := list + rhs';
      assert list + rhs == s' + [v];
      AppendErrorsCountsPairs(list, rhs');
      CollisionCountCountsPairs(s', v, |s'|);
      NewCollisionsSnoc(s', v, |list|);
    }
  }

  /** Appending in two steps reports the errors of each step. */
  lemma {:induction false} AppendErrorsSplit(list: seq<BindingSymbol>, a: seq<BindingSymbol>, b: seq<BindingSymbol>)
    ensures AppendErrors(list, a + b) == AppendErrors(list, a) + AppendErrors(list + a, b)
    decreases |b|
  {
    if b == [] {
      assert a + b == a;
    } else {
      var b' := b[..|b| - 1];
      assert (a + b)[..|a + b| - 1] == a + b';
      assert (a + b)[|a + b| - 1] == b[|b| - 1];
      assert list + (a + b') == (list + a) + b';
      AppendErrorsSplit(list, a, b');
    }
  }

  /** How the right operands are grouped into lists does not change the errors union reports. */
  lemma {:induction false} UnionErrorsFlat(lhs: seq<BindingSymbol>, rhss: seq<seq<BindingSymbol>>)
    ensures UnionErrors(lhs, rhss) == AppendErrors(lhs, Concat(rhss))
    decreases |rhss|
  {
    if rhss != [] {
      var rhss' := rhss[..|rhss| - 1];
      UnionErrorsFlat(lhs, rhss');
      assert Concat(rhss) == Concat(rhss') + rhss[|rhss| - 1];
      AppendErrorsSplit(lhs, Concat(rhss'), rhss[|rhss| - 1]);
    }
  }

  /**
   * `union(lhs, rhss...)` reports one error per pair of colliding elements of
   * its result whose later element comes from a right operand.
   */
  lemma UnionCountsPairs(lhs: seq<BindingSymbol>, rhss: seq<seq<BindingSymbol>>)
    ensures UnionErrors(lhs, rhss) == |NewCollisions(lhs + Concat(rhss), |lhs|)|
  {
    UnionErrorsFlat(lhs, rhss);
    AppendErrorsCountsPairs(lhs, Concat(rhss));
  }

  /**
   * Union reports no error exactly when no element of a right operand
   * collides with an element placed before it.
   */
  lemma UnionErrorsZeroIff(lhs: seq<BindingSymbol>, rhss: seq<seq<BindingSymbol>>)
    ensures UnionErrors(lhs, rhss) == 0 <==> NoNewCollision(lhs + Concat(rhss), |lhs|)
  {
    var s := lhs + Concat(rhss);
    UnionCountsPairs(lhs, rhss);
    if !NoNewCollision(s, |lhs|) {
      var i, j :| 0 <= i < j < |s| && |lhs| <= j && Collides(s[i], s[j]);
      assert (i, j) in NewCollisions(s, |lhs|);
    }
  }

  /**
   * A union that reports nothing, of a first operand with distinct names,
   * has distinct names.
   */
  lemma UnionKeepsDistinct(lhs: seq<BindingSymbol>, rhss: seq<seq<BindingSymbol>>)
    requires DistinctNames(lhs)
    requires UnionErrors(lhs, rhss) == 0
    ensures DistinctNames(lhs + Concat(rhss))
  {
    var s := lhs + Concat(rhss);
    UnionErrorsZeroIff(lhs, rhss);
    forall i, j | 0 <= i < j < |s|
      ensures !Collides(s[i], s[j])
    {
      if j < |lhs| {
        assert s[i] == lhs[i] && s[j] == lhs[j];
      }
    }
  }

  /**
   * Collisions inside the first operand are never checked: when every right
   * operand is empty the union is the first operand, with no error, however
   * many names it repeats.
   */
  lemma {:induction false} UnionOfEmptyOperands(lhs: seq<BindingSymbol>, rhss: seq<seq<BindingSymbol>>)
    requires forall k :: 0 <= k < |rhss| ==> rhss[k] == []
    ensures lhs + Concat(rhss) == lhs
    ensures UnionErrors(lhs, rhss) == 0
    decreases |rhss|
  {
    if rhss != [] {
      var rhss' := rhss[..|rhss| - 1];
      UnionOfEmptyOperands(lhs, rhss');
      assert rhss[|rhss| - 1] == [];
    }
  }

  /**
   * `union([x], [x])` is `[x, x]`, with one error, or none when `x` is
   * clash-flagged.
   */
  lemma UnionSingletons(x: BindingSymbol)
    ensures [x] + Concat([[x]]) == [x, x]
    ensures UnionErrors([x], [[x]]) == if x.clash then 0 else 1
  {
    assert [[x]][..0] == [];
    assert [x][..0] == [];
    assert [x] + Concat([]) == [x];
    assert AppendErrors([x], [x]) == CollisionCount([x], x) by {
      assert [x] + [x][..0] == [x];
    }
    assert CollisionCount([x], x) == if Collides(x, x) then 1 else 0;
  }
}

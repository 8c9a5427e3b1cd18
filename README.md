# Match bindings computer, in Dafny

A model of `MatchBindingsComputer`, the part of the Java compiler's attribution phase that works out which
pattern variables (the `v` of `x instanceof T v`) are in scope after a boolean expression is true and after
it is false, and that reports "match binding exists" errors when the same name is bound twice.

The values it works on are the pair of binding lists `(bindingsWhenTrue, bindingsWhenFalse)`, the shared
`EMPTY` pair, binding symbols and the compiler's error log. It has two list primitives:

- `intersection`, a nested loop that keeps each right-hand binding once for every left-hand binding it
  collides with (same name, neither flagged as clashing), and reports one error per binding it keeps.
- `union`, which appends every element of every right operand to the first operand. Before appending an
  element it reports one error for each element already in the list that collides with it.

Four combinators are built on them:

- `unary` for `!`;
- `binary` for `&&` and `||`;
- `conditional` for `?:`;
- `finishBindings`, the tag allow-list.

The files are:

- `binding_model.dfy` (module `BindingModel`) holds the data:
  - `BindingSymbol`, a name and the CLASH flag as a boolean;
  - the node `Tag`, with `Tree` reduced to a tag and a position;
  - the `MatchBindings` datatype, whose `EMPTY` constructor is the sentinel;
  - the `Log` class, an append-only list of diagnostics.
- `binding_lists.dfy` (module `BindingLists`) gives the two primitives as functions, with their error counts
  and the lemmas that characterise them.
- `combinators.dfy` (module `Combinators`) gives the four combinators as functions, with their error counts
  and lemmas.
- `computer.dfy` (module `Computer`) holds the class `MatchBindingsComputer`. It owns a `Log`, and its
  methods perform the loops and the `log.error` calls. Each method is proved to return what the
  corresponding function returns and to append exactly that function's number of errors to the log.

`EMPTY` is compared by identity in the source, so it is a constructor of its own here. A freshly built pair
of two empty lists is a different value from it, as it is a different object in the source.

## Model

| member | source | states |
|---|---|---|
| BindingModel.Collides | src/main/java/com/lan/tools/javac/comp/MatchBindingsComputer.java:147-149 | two symbols collide only when they have the same name; a clash-flagged symbol collides with nothing; the same test guards the report in union at lines 165-167 |
| BindingModel.Reports | src/main/java/com/lan/tools/javac/comp/MatchBindingsComputer.java:150 | `n` error reports at one position leave exactly `n` diagnostics |
| BindingModel.Log.Error | src/main/java/com/lan/tools/javac/comp/MatchBindingsComputer.java:150 | reporting an error appends one "match binding exists" diagnostic at `pos` and changes nothing else |
| BindingModel.ReportsAdd | src/main/java/com/lan/tools/javac/comp/MatchBindingsComputer.java:150 | reports at one position add up: `n` reports then `k` reports are `n + k` reports |
| BindingLists.Matching | src/main/java/com/lan/tools/javac/comp/MatchBindingsComputer.java:146-153 | one run of the inner loop keeps at most as many elements as it scans |
| BindingLists.Intersect | src/main/java/com/lan/tools/javac/comp/MatchBindingsComputer.java:142-156 | the intersection is empty when the right operand is; its membership, order and length are stated by the lemmas below |
| BindingLists.MatchingMembership | src/main/java/com/lan/tools/javac/comp/MatchBindingsComputer.java:146-153 | the inner loop keeps `v` if and only if `v` is in `rhs` and collides with `v1` (same name, neither clash-flagged) |
| BindingLists.MatchingAppend | src/main/java/com/lan/tools/javac/comp/MatchBindingsComputer.java:146-153 | the inner loop scans `rhs` in order: scanning `a + b` keeps the matches in `a`, then those in `b` |
| BindingLists.IntersectAppend | src/main/java/com/lan/tools/javac/comp/MatchBindingsComputer.java:145-154 | intersection walks `lhs` in order: intersecting `a + b` gives the result for `a`, then the result for `b` |
| BindingLists.IntersectMembership | src/main/java/com/lan/tools/javac/comp/MatchBindingsComputer.java:144-155 | `v` is in `intersection(lhs, rhs)` if and only if `v` is in `rhs` and collides with some element of `lhs` |
| BindingLists.IntersectEmptyIff | src/main/java/com/lan/tools/javac/comp/MatchBindingsComputer.java:145-153 | the intersection is empty, so nothing is reported, if and only if no element of `lhs` collides with an element of `rhs`; this covers an empty operand, no shared name, and every shared name having a clash-flagged member |
| BindingLists.IntersectSingletons | src/main/java/com/lan/tools/javac/comp/MatchBindingsComputer.java:147-151 | `intersection([x], [x])` is `[x]`, which is one error, unless `x` is clash-flagged, in which case it is empty |
| BindingLists.MatchingCountsPairs | src/main/java/com/lan/tools/javac/comp/MatchBindingsComputer.java:146-153 | one inner loop keeps one element per index `j` whose `rhs[j]` collides with `v1` |
| BindingLists.IntersectCountsPairs | src/main/java/com/lan/tools/javac/comp/MatchBindingsComputer.java:144-155 | the intersection's length, which is its number of errors, equals the number of colliding index pairs `(i, j)` of `lhs` and `rhs` |
| BindingLists.Concat | src/main/java/com/lan/tools/javac/comp/MatchBindingsComputer.java:162-173 | the operand lists one after another; the length is the sum of the operand lengths |
| BindingLists.ConcatAppend | src/main/java/com/lan/tools/javac/comp/MatchBindingsComputer.java:162-173 | appending the operands of `a + b` appends those of `a`, then those of `b` |
| BindingLists.ConcatSmall | src/main/java/com/lan/tools/javac/comp/MatchBindingsComputer.java:86-87 | `union` with one operand list yields `x + a`; with two operand lists it yields `x + a + b` |
| BindingLists.CollisionCount | src/main/java/com/lan/tools/javac/comp/MatchBindingsComputer.java:164-170 | the innermost loop reports at most one error per element of the list |
| BindingLists.AppendErrors | src/main/java/com/lan/tools/javac/comp/MatchBindingsComputer.java:163-172 | appending `rhs` to `list` reports at most one error per element already in the list, for each element appended: at most the length of `rhs` times the length of `list + rhs` |
| BindingLists.UnionErrors | src/main/java/com/lan/tools/javac/comp/MatchBindingsComputer.java:159-175 | `union(lhs, rhss...)` reports at most one error per pair of a right-operand element and an element placed before it: at most `T` times the length of `lhs` plus `T`, for `T` right-operand elements |
| BindingLists.CollisionCountZeroIff | src/main/java/com/lan/tools/javac/comp/MatchBindingsComputer.java:164-170 | the innermost loop reports nothing if and only if no element of the list collides with `v` |
| BindingLists.CollisionCountCountsPairs | src/main/java/com/lan/tools/javac/comp/MatchBindingsComputer.java:164-170 | the innermost loop reports one error per index of the list whose element collides with `v` |
| BindingLists.AppendErrorsCountsPairs | src/main/java/com/lan/tools/javac/comp/MatchBindingsComputer.java:163-172 | appending `rhs` to `list` reports one error per colliding pair `(i, j)`, `i < j`, of `list + rhs` where `j` lies in `rhs`; pairs inside `list` are never checked |
| BindingLists.AppendErrorsSplit | src/main/java/com/lan/tools/javac/comp/MatchBindingsComputer.java:163-172 | appending `a + b` reports the errors of appending `a` plus those of appending `b` to the longer list |
| BindingLists.UnionErrorsFlat | src/main/java/com/lan/tools/javac/comp/MatchBindingsComputer.java:162-173 | how the right operands are split into lists does not change the errors: union's errors are those of appending their concatenation |
| BindingLists.UnionCountsPairs | src/main/java/com/lan/tools/javac/comp/MatchBindingsComputer.java:159-175 | `union(lhs, rhss...)` reports one error per colliding pair of its result whose later element comes from a right operand |
| BindingLists.UnionErrorsZeroIff | src/main/java/com/lan/tools/javac/comp/MatchBindingsComputer.java:159-175 | union reports nothing if and only if no right-operand element collides with an element placed before it |
| BindingLists.UnionKeepsDistinct | src/main/java/com/lan/tools/javac/comp/MatchBindingsComputer.java:159-175 | a union that reports nothing, starting from a list with no colliding pair, yields a list with no colliding pair |
| BindingLists.UnionOfEmptyOperands | src/main/java/com/lan/tools/javac/comp/MatchBindingsComputer.java:161-174 | with all right operands empty, the union is the first operand and reports nothing, however many names that operand repeats |
| BindingLists.UnionSingletons | src/main/java/com/lan/tools/javac/comp/MatchBindingsComputer.java:161-174 | `union([x], [x])` is `[x, x]` with one error, and with no error when `x` is clash-flagged |
| Combinators.Unary | src/main/java/com/lan/tools/javac/comp/MatchBindingsComputer.java:91-94 | under NOT the when-true and when-false lists are exchanged; any other tag, or the sentinel, passes through unchanged; the result is the sentinel exactly when the input is |
| Combinators.UnaryInvolution | src/main/java/com/lan/tools/javac/comp/MatchBindingsComputer.java:91-94 | `unary` applied twice gives back the very same bindings, for every input |
| Combinators.Binary | src/main/java/com/lan/tools/javac/comp/MatchBindingsComputer.java:96-118 | the result is the sentinel exactly when the tag is neither AND nor OR; for AND and OR it is a new pair even when both inputs are the sentinel |
| Combinators.BinaryMembership | src/main/java/com/lan/tools/javac/comp/MatchBindingsComputer.java:97-115 | AND is true with `v` if and only if either operand is; AND is false with `v` if and only if the right operand is false with `v` and the left is false with a colliding binding. OR is the mirror image |
| Combinators.BinaryErrors | src/main/java/com/lan/tools/javac/comp/MatchBindingsComputer.java:96-118 | any tag other than AND or OR reports nothing |
| Combinators.BinaryReportsNothingIff | src/main/java/com/lan/tools/javac/comp/MatchBindingsComputer.java:97-115 | AND reports nothing if and only if the right when-true list adds no colliding name and the when-false lists share no colliding name; OR is the mirror image |
| Combinators.BinaryKeepsDistinct | src/main/java/com/lan/tools/javac/comp/MatchBindingsComputer.java:97-115 | an AND or OR that reports nothing, over a left operand without colliding pairs, yields lists without colliding pairs; the intersected list is then empty |
| Combinators.BinaryDeMorgan | src/main/java/com/lan/tools/javac/comp/MatchBindingsComputer.java:91-118 | `a && b` has the bindings and error count of `!(!a OR !b)`, and `a OR b` has those of `!(!a && !b)`, for all operands |
| Combinators.BinaryOfNoBindings | src/main/java/com/lan/tools/javac/comp/MatchBindingsComputer.java:96-118 | operands without bindings give a result without bindings and no error |
| Combinators.BinaryAndOfTwoTests | src/main/java/com/lan/tools/javac/comp/MatchBindingsComputer.java:98-105 | `a instanceof T t && b instanceof U u` is true with `[t, u]`, false with nothing, and reports no error |
| Combinators.BinaryOrOfTwoTests | src/main/java/com/lan/tools/javac/comp/MatchBindingsComputer.java:107-114 | `a instanceof T t OR b instanceof U u` binds nothing either way and reports no error |
| Combinators.Outcome | src/main/java/com/lan/tools/javac/comp/MatchBindingsComputer.java:69-87 | one outcome of `x ? y : z` joins the three intersections of lines 69-79 in the order of lines 86-87; when one branch binds nothing for this outcome, only the intersection of the other branch with the condition remains |
| Combinators.OutcomeMembership | src/main/java/com/lan/tools/javac/comp/MatchBindingsComputer.java:69-87 | one outcome of `x ? y : z` binds `v` if and only if `z` binds it and `y` or the condition's true list has a colliding binding, or `y` binds it and the condition's false list has one |
| Combinators.Conditional | src/main/java/com/lan/tools/javac/comp/MatchBindingsComputer.java:60-89 | the result is the sentinel exactly when all three inputs are the sentinel |
| Combinators.ConditionalMembership | src/main/java/com/lan/tools/javac/comp/MatchBindingsComputer.java:67-88 | membership of each list of the conditional, both directions, in terms of the branches' and the condition's lists; every binding kept comes from a branch's list for the same outcome |
| Combinators.ConditionalErrors | src/main/java/com/lan/tools/javac/comp/MatchBindingsComputer.java:60-65 | three sentinels report nothing |
| Combinators.OutcomeErrors | src/main/java/com/lan/tools/javac/comp/MatchBindingsComputer.java:69-87 | one outcome reports at least one error per binding it passes on |
| Combinators.ConditionalErrorsCoverBindings | src/main/java/com/lan/tools/javac/comp/MatchBindingsComputer.java:60-89 | a conditional reports at least as many errors as its two lists hold together; one that reports nothing binds nothing |
| Combinators.ConditionalOfNoBindings | src/main/java/com/lan/tools/javac/comp/MatchBindingsComputer.java:60-89 | inputs without bindings, whether sentinels or not, give a result without bindings and no error, so the identity shortcut changes no contents |
| Combinators.ConditionalSameBindingInBranches | src/main/java/com/lan/tools/javac/comp/MatchBindingsComputer.java:69-87 | `c ? (… y) : (… y)` with `c` binding `x` when false binds `[y]` when true and reports exactly one error |
| Combinators.ConditionalDuplicateAcrossCondition | src/main/java/com/lan/tools/javac/comp/MatchBindingsComputer.java:69-87 | with `c` binding `y` when false as well, the result binds `[y, y]` when true and reports exactly three errors |
| Combinators.FinishBindings | src/main/java/com/lan/tools/javac/comp/MatchBindingsComputer.java:120-129 | NOT, AND, OR, BINDINGPATTERN, PARENS, TYPETEST and CONDEXPR pass the bindings through unchanged; every other tag gives the sentinel |
| Computer.MatchBindingsComputer.constructor | src/main/java/com/lan/tools/javac/comp/MatchBindingsComputer.java:56-58 | the computer reports to the log it is given |
| Computer.MatchBindingsComputer.AppendMatching | src/main/java/com/lan/tools/javac/comp/MatchBindingsComputer.java:146-153 | the inner loop of intersection appends `Matching(v1, rhs)` to the list and appends one diagnostic per element it appends |
| Computer.MatchBindingsComputer.Intersection | src/main/java/com/lan/tools/javac/comp/MatchBindingsComputer.java:142-156 | returns `Intersect(lhs, rhs)` and appends exactly one diagnostic per element of the result |
| Computer.MatchBindingsComputer.ReportCollisions | src/main/java/com/lan/tools/javac/comp/MatchBindingsComputer.java:164-170 | appends one diagnostic per element of the list that collides with `v` |
| Computer.MatchBindingsComputer.AppendChecked | src/main/java/com/lan/tools/javac/comp/MatchBindingsComputer.java:163-172 | returns `list + rhs` and appends `AppendErrors(list, rhs)` diagnostics |
| Computer.MatchBindingsComputer.Union | src/main/java/com/lan/tools/javac/comp/MatchBindingsComputer.java:158-175 | returns `lhs` followed by every operand list and appends `UnionErrors(lhs, rhss)` diagnostics |
| Computer.MatchBindingsComputer.Binary | src/main/java/com/lan/tools/javac/comp/MatchBindingsComputer.java:96-118 | returns `Combinators.Binary` and appends `Combinators.BinaryErrors` diagnostics: union's, then intersection's for AND, the reverse for OR |
| Computer.MatchBindingsComputer.Conditional | src/main/java/com/lan/tools/javac/comp/MatchBindingsComputer.java:60-89 | returns `Combinators.Conditional` and appends `Combinators.ConditionalErrors` diagnostics; three sentinels return the sentinel and leave the log as it was |

Two behaviours of the code are worth spelling out:

- `binary` of two `EMPTY` inputs under AND or OR returns a new pair of empty lists, not `EMPTY`: lines 105
  and 114 always build a new pair. `unary`, `conditional` and `finishBindings` keep the sentinel; `binary`
  does not. `Combinators.Binary` and `Combinators.BinaryOfNoBindings` state this: the contents are empty and
  nothing is reported, but identity is not kept.
- If both branches of a conditional bind `y` when true, the intersection of the two branches at line 73
  keeps `y` and reports one error (`ConditionalSameBindingInBranches`). If the condition also binds `y`
  when false, lines 71, 73 and 86 report three errors: two from the intersections and one from the union
  that joins the two `y`s (`ConditionalDuplicateAcrossCondition`).

`UnaryInvolution` and `BinaryDeMorgan` hold for all inputs, with no assumption about duplicate names or
overlapping operands.

## Left out

- The `Context`-keyed singleton registry (`instance`, lines 45-54) is infrastructure. The constructor takes
  the `Log` directly.
- `Log` message formatting and `Errors.MatchBindingExists`: an error is one `MatchBindingExists(pos)` entry
  in the log, and a `DiagnosticPosition` is an opaque `Position`.
- The log here records every `log.error` call (lines 150 and 168), so every error count in the model counts
  calls. `Log` is not part of this model, and any filtering it does of repeated reports at one position is
  not modelled.
- The `TreeScanner` superclass and everything about `JCTree` except its tag and position.
- The `Flags` bitmask: `(flags() & CLASH) == 0` becomes the boolean `clash` being false.
- `Name` interning: names are compared by value.
- The structural sharing of the persistent `List`: lists are Dafny sequences, and `append` is `+ [v]`.
- The varargs of `union` are a sequence of lists.
- The nested loops of `intersection` and `union` are single methods in the source. Here each inner loop is
  a method of its own (`AppendMatching`, `AppendChecked`, `ReportCollisions`). They run the same
  iterations in the same order and report the same errors.

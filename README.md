# tree_rewriter in Dafny

A model of `tree_rewriter`, a small term-rewriting engine over immutable
S-expression trees, together with the generic helpers of its cookbook.

- **Trees.** A tree is an atom or a tuple. Element 0 of a tuple is its head.
- **Rules.** A rule is a function from trees to trees; returning the input
  means "no change".
- **`rewrite`.** The driver scans the rules in order. It applies the first
  rule whose output differs from its input, then restarts the scan from the
  first rule. It stops at a tree that no rule changes.
- **`when(...).where(...).then(...)`.** The fluent builder of rules. Calling
  the built object matches its tuple pattern against the tree. Matching
  follows a fixed precedence: predicate, wildcard, `$`-variable, plain
  equality, tuple descent. It threads one insertion-ordered dictionary of
  bindings through the descent. The guard and the transform receive the
  bound values in that order.
- **Combinators.** `bottom_up`, `first`, `all`, `commutative`, `is_type` and
  `is_literal`. From the cookbook: `repeat`, `top_down`, `var`, `op`,
  `is_op`, `is_symbol`, `is_number`, `is_zero`, `is_one`, `where_any`,
  `negate` and `where_all`.

Modules, one per file:

- `Wrappers` (`wrappers.dfy`): the `Option` type.
- `Trees` (`trees.dfy`): the atom values, with Python's classes as kind
  tags, and tree height.
- `Patterns` (`patterns.dfy`): the pattern cases and the bindings
  dictionary. The dictionary is a sequence of key/value pairs, with
  `Anon(n)` standing for the generated key `"_n"`.
- `Matcher` (`matcher.dfy`): `_match`, both as a function and as the
  imperative method the source runs. Its properties include a declarative
  reading of matching, proved sound and complete.
- `Rules` (`rules.dfy`): the rule value, the `When` builder class,
  `__call__`, `commutative`, `is_type` and `is_literal`.
- `Strategies` (`strategies.dfy`): `bottom_up`, `first`, `all` and
  `rewrite`. Each loop is a method proved against a specification function.
- `Cookbook` (`cookbook.dfy`): the cookbook helpers, and the `where_all`
  finding.
- `Scenarios` (`scenarios.dfy`): the concrete rewrites asserted by
  `tests/test_rewrite.py` and by two of the cookbook demos, derived from the
  model.

Rules, guards, transforms and predicates are Dafny function values. The
variable-length argument lists of guards and transforms become `seq<Tree>`.

`rewrite`, `repeat` and `top_down` are not guaranteed to terminate. They are
modelled as functions with a fuel bound: `rewrite` and `repeat` return
`None`, and `top_down` returns `OutOfFuel`, when the bound is exceeded.
Lemmas show that more fuel never changes an answer.

Three behaviours of the code worth knowing:

- `bottom_up` applies the rule to atoms as well, rather than passing them
  through untouched (tree_rewriter.py:66-72).
- `bottom_up` never visits the head of a tuple, only the elements after it
  (tree_rewriter.py:67-69).
- `when(*pattern)` always builds a tuple pattern, so a rule never changes an
  atom (tree_rewriter.py:96-97, `Rules.AtomsAreFixed`).

## Model

| member | source | states |
|---|---|---|
| Trees.Value | src/tree_rewriter/tree_rewriter.py:16 | type: the atom values, one case per scalar class the engine tells apart (`str`, `int`, `float`, `bool`, `complex`, `None`) |
| Trees.Tree | src/tree_rewriter/tree_rewriter.py:15-17 | type: a tree is an atom or an immutable tuple of trees |
| Patterns.Pattern | src/tree_rewriter/tree_rewriter.py:164-202 | type: the pattern cases the matcher distinguishes: a predicate, the wildcard object, a scalar, a tuple of patterns |
| Patterns.IsWildcard | src/tree_rewriter/tree_rewriter.py:174-175 | definition: the wildcard object `_` or the string `"_"` |
| Patterns.IsVariable | src/tree_rewriter/tree_rewriter.py:180-181 | definition: a string that starts with `$` |
| Patterns.PlainEq | src/tree_rewriter/tree_rewriter.py:190-191 | definition: Python's `pattern == tree`; a predicate or the wildcard object never equals a tree, scalars compare by value, tuples element by element |
| Patterns.Get | src/tree_rewriter/tree_rewriter.py:182-184 | dictionary lookup: absent exactly when no entry has the key, otherwise the value of an entry with that key |
| Patterns.Put | src/tree_rewriter/tree_rewriter.py:169-170 | dictionary store: the key then maps to the value, every other key is unchanged, and a new key is appended at the end (insertion order) |
| Patterns.Values | src/tree_rewriter/tree_rewriter.py:140-143 | `bindings.values()`: the bound trees in insertion order |
| Patterns.WellKeyedDistinct | src/tree_rewriter/tree_rewriter.py:169-187 | keys in a dictionary built by the matcher never collide |
| Patterns.AnonFresh | src/tree_rewriter/tree_rewriter.py:169 | the generated key `"_len"` is never already present |
| Patterns.PutAnon | src/tree_rewriter/tree_rewriter.py:176-177 | a predicate or wildcard capture appends exactly one entry and keeps keys distinct |
| Patterns.PutNamed | src/tree_rewriter/tree_rewriter.py:186-188 | the first occurrence of a variable appends exactly one entry and keeps keys distinct |
| Matcher.Match | src/tree_rewriter/tree_rewriter.py:148-205 | definition: the cases in precedence order (predicate, wildcard, variable, plain equality, tuple descent of equal length) threading the dictionary, `None` on failure |
| Matcher.MatchSeq | src/tree_rewriter/tree_rewriter.py:194-202 | definition: left-to-right descent through equally long tuples; the first failing position fails the whole |
| Matcher.MatchInto | src/tree_rewriter/tree_rewriter.py:148-205 | the imperative matcher with its `zip` loop over tuple positions computes the matcher function |
| Matcher.MatchPrecedence | src/tree_rewriter/tree_rewriter.py:164-205 | precedence (predicate, wildcard, variable, plain equality, tuple descent, failure), with what each case adds to the dictionary |
| Matcher.MatchExtends | src/tree_rewriter/tree_rewriter.py:161-205 | a successful match only appends to the dictionary and keeps its keys distinct |
| Matcher.MatchSeqExtends | src/tree_rewriter/tree_rewriter.py:194-202 | the same for tuple descent |
| Matcher.MatchKeepsNamed | src/tree_rewriter/tree_rewriter.py:180-188 | a variable once bound keeps its value through the rest of the match |
| Matcher.MatchSeqKeepsNamed | src/tree_rewriter/tree_rewriter.py:199-202 | the same through tuple descent |
| Matcher.MatchTupleShape | src/tree_rewriter/tree_rewriter.py:194-197 | a tuple pattern matches only a tuple of the same length |
| Matcher.MatchSeqSplit | src/tree_rewriter/tree_rewriter.py:199-202 | descent is a left-to-right fold: a prefix, then the rest from the prefix's dictionary |
| Matcher.MatchSeqFirstFailure | src/tree_rewriter/tree_rewriter.py:199-201 | the first failing position fails the whole tuple |
| Matcher.CaptureAppends | src/tree_rewriter/tree_rewriter.py:164-178 | a capture appends its tree under the next generated key |
| Matcher.CapturesInOrder | src/tree_rewriter/tree_rewriter.py:164-202 | captures record their trees in pattern order under the keys `_n`, `_n+1`, ... |
| Matcher.CaptureTupleValues | src/tree_rewriter/tree_rewriter.py:137-143 | a tuple pattern made only of captures hands the tuple's elements, in order, to the guard and the transform |
| Matcher.NonlinearVariable | src/tree_rewriter/tree_rewriter.py:180-188 | `(head, $x, $x)` matches `(head, a, c)` exactly when a equals c |
| Matcher.MatchSound | src/tree_rewriter/tree_rewriter.py:148-205 | a successful match yields an assignment of variables under which the pattern describes the tree |
| Matcher.MatchSeqSound | src/tree_rewriter/tree_rewriter.py:194-202 | the same for tuple descent |
| Matcher.MatchComplete | src/tree_rewriter/tree_rewriter.py:148-205 | every assignment that makes the pattern describe the tree, and agrees with the dictionary, is found by the matcher |
| Matcher.MatchSeqComplete | src/tree_rewriter/tree_rewriter.py:194-202 | the same for tuple descent |
| Matcher.MatchIffDescribed | src/tree_rewriter/tree_rewriter.py:148-205 | from an empty dictionary, matching succeeds exactly when some assignment makes the pattern describe the tree |
| Rules.TransformOf | src/tree_rewriter/tree_rewriter.py:113-126 | definition: a callable `then` argument is used as it is; any other value becomes a function returning it |
| Rules.Apply | src/tree_rewriter/tree_rewriter.py:128-146 | definition: match the pattern tuple from an empty dictionary, check the guard on the bound values, apply the transform; otherwise return the input |
| Rules.AsRule | src/tree_rewriter/tree_rewriter.py:128-146 | definition: a `when` object called as a tree-to-tree function |
| Rules.When.constructor | src/tree_rewriter/tree_rewriter.py:96-99 | a new rule has the given pattern, no guard and no transform |
| Rules.When.Where | src/tree_rewriter/tree_rewriter.py:101-111 | stores the guard, leaves the other fields alone, returns the object itself |
| Rules.When.Then | src/tree_rewriter/tree_rewriter.py:113-126 | stores the callable, or a constant function for any other value; leaves the other fields alone; returns the object itself |
| Rules.When.Call | src/tree_rewriter/tree_rewriter.py:128-146 | calling the object is the rule application function on its current fields |
| Rules.ApplyChanges | src/tree_rewriter/tree_rewriter.py:137-146 | a rule changes a tree only when it is a tuple of the pattern's length, the match succeeded, the guard accepted and a transform exists; the output is then the transform of the bound values |
| Rules.WithoutThenIsNoOp | src/tree_rewriter/tree_rewriter.py:142-146 | a rule without `then` never changes a tree |
| Rules.ConstantResult | src/tree_rewriter/tree_rewriter.py:122-125 | a constant `then` value is produced on every accepted match, and nothing else is ever produced |
| Rules.EmptyPatternMatchesOnlyEmptyTuple | src/tree_rewriter/tree_rewriter.py:96-97 | `when()` matches `()` and nothing else |
| Rules.CapturingRuleArguments | src/tree_rewriter/tree_rewriter.py:137-143 | a rule whose positions all capture passes the tuple's elements to its transform |
| Rules.Commutative | src/tree_rewriter/tree_rewriter.py:220-237 | `commutative` yields exactly two rules |
| Rules.CommutativeLeft | src/tree_rewriter/tree_rewriter.py:237 | the first rule rewrites `(op, value, x)` to the result given `[x]` |
| Rules.CommutativeRight | src/tree_rewriter/tree_rewriter.py:237 | the second rule rewrites `(op, x, value)` to the same |
| Rules.LiteralMatch | src/tree_rewriter/tree_rewriter.py:190-205 | a plain scalar pattern matches its own atom, adding nothing, and fails on everything else |
| Rules.HeadMismatch | src/tree_rewriter/tree_rewriter.py:190-205 | a rule with a literal head leaves a tuple with another head unchanged |
| Rules.AtomsAreFixed | src/tree_rewriter/tree_rewriter.py:96-97 | since the pattern is always a tuple, a rule never changes an atom |
| Rules.IsType | src/tree_rewriter/tree_rewriter.py:241-253 | definition: holds of a tree whose class is one of the listed ones |
| Rules.IsTypeIntFloat | tests/test_rewrite.py:54-58 | `is_type(int, float)` holds exactly of int and float atoms; it accepts 3 and 2.5 and rejects 'x' |
| Rules.IsTypeUnion | src/tree_rewriter/tree_rewriter.py:241-253 | `is_type` over a union of class lists is the disjunction of the two; with no classes it accepts nothing |
| Rules.IsLiteral | src/tree_rewriter/tree_rewriter.py:257 | definition: `is_type` over int, float, bool, complex and `None` |
| Rules.IsLiteralExactly | src/tree_rewriter/tree_rewriter.py:257 | the literals are exactly the atoms that are not strings |
| Strategies.BottomUp | src/tree_rewriter/tree_rewriter.py:64-72 | definition: the rule applied to the rebuilt node |
| Strategies.Rebuilt | src/tree_rewriter/tree_rewriter.py:66-70 | definition: a non-empty tuple keeps its head and has its other elements rewritten bottom-up; atoms and `()` are left as they are |
| Strategies.BottomUpRule | src/tree_rewriter/tree_rewriter.py:64-74 | definition: the closure `bottom_up(rule)` returns |
| Strategies.BottomUpShape | src/tree_rewriter/tree_rewriter.py:64-72 | `bottom_up` keeps the head and the arity, rewrites the other elements first, then applies the rule to the rebuilt node; atoms and `()` go straight to the rule |
| Strategies.BottomUpFixedEverywhere | src/tree_rewriter/tree_rewriter.py:64-72 | when the rule changes no visited node, `bottom_up` changes nothing |
| Strategies.ScanFrom | src/tree_rewriter/tree_rewriter.py:39-43 | the index of the first rule from k on that changes the tree, or none when none does |
| Strategies.Scan | src/tree_rewriter/tree_rewriter.py:39-46 | none exactly at a fixed point; otherwise the first changing rule |
| Strategies.ScanFindsFirst | src/tree_rewriter/tree_rewriter.py:39-43 | the first changing rule is unique |
| Strategies.FirstRule | src/tree_rewriter/tree_rewriter.py:275-282 | definition: the closure `first(*rules)` returns |
| Strategies.FirstOf | src/tree_rewriter/tree_rewriter.py:275-280 | `first` returns its input exactly when no rule changes it; otherwise the output of the first rule that does |
| Strategies.First | src/tree_rewriter/tree_rewriter.py:275-280 | the early-return loop computes `first` |
| Strategies.AllOf | src/tree_rewriter/tree_rewriter.py:297-300 | definition: the tree threaded through every rule once, in order |
| Strategies.AllRule | src/tree_rewriter/tree_rewriter.py:297-302 | definition: the closure `all(*rules)` returns |
| Strategies.All | src/tree_rewriter/tree_rewriter.py:297-300 | the reassigning loop threads the tree through every rule in order |
| Strategies.AllOfAppend | src/tree_rewriter/tree_rewriter.py:297-300 | `all` over `a + b` is `all` over a, then over b |
| Strategies.AllOfBase | src/tree_rewriter/tree_rewriter.py:297-300 | `all()` is the identity and `all(r)` is r |
| Strategies.Rewritten | src/tree_rewriter/tree_rewriter.py:38-46 | a result is fixed by every rule; a tree no rule changes is returned as it is |
| Strategies.Rewrite | src/tree_rewriter/tree_rewriter.py:38-46 | the nested driver loop computes the driver function |
| Strategies.FindChange | src/tree_rewriter/tree_rewriter.py:39-44 | the inner loop finds the scan's answer |
| Strategies.RewrittenStep | src/tree_rewriter/tree_rewriter.py:39-43 | one driver step continues from the output of the first changing rule |
| Strategies.RewrittenStepAt | src/tree_rewriter/tree_rewriter.py:39-43 | the same step, given the scan's answer |
| Strategies.RewrittenFuelMonotone | src/tree_rewriter/tree_rewriter.py:38-46 | more fuel never changes the driver's answer |
| Strategies.RewrittenIdempotent | src/tree_rewriter/tree_rewriter.py:38-46 | rewriting a result again returns it unchanged |
| Strategies.RewrittenRestarts | src/tree_rewriter/tree_rewriter.py:38-43 | after a change the driver rescans from rule 0 on the new tree |
| Cookbook.Repeated | examples/cookbook.py:12-20 | a result is fixed by the rule; a tree the rule fixes is returned as it is |
| Cookbook.Repeat | examples/cookbook.py:14-19 | the `while True` loop computes `repeat` |
| Cookbook.RepeatedIsRewrittenOne | examples/cookbook.py:12-20 | `repeat(rule)` is `rewrite` with that single rule |
| Cookbook.RewrittenIsRepeatedFirst | src/tree_rewriter/tree_rewriter.py:38-46 | `rewrite` over several rules is `repeat(first(*rules))` |
| Cookbook.RepeatedFuelMonotone | examples/cookbook.py:14-19 | more fuel never changes what `repeat` answers |
| Cookbook.TopDown | examples/cookbook.py:23-30 | definition: apply the rule; a non-tuple gets the rule again; `()` is the `IndexError` outcome; otherwise keep the head, walk the other elements and apply the rule to the rebuilt node, within a depth bound |
| Cookbook.WalkChildren | examples/cookbook.py:28 | definition: the walks of the children left to right; the first failure stops the rest |
| Cookbook.TopDownRule | examples/cookbook.py:23-30 | definition: `top_down(rule)` as a rule for a given bound; a failed walk returns the input |
| Cookbook.TopDownRuleAgrees | examples/cookbook.py:23-30 | for a rule that never deepens a tree and a bound covering its height, the rule value is the walk's result (the input where the walk hits `()`), and a larger bound gives the same value |
| Cookbook.TopDownNonTuple | examples/cookbook.py:25-29 | when the first application gives a non-tuple, `top_down` is the rule applied twice |
| Cookbook.TopDownEmptyTuple | examples/cookbook.py:26-28 | when the rule produces `()`, `top_down` fails at `t2[0]` |
| Cookbook.WalkChildrenDone | examples/cookbook.py:28 | a successful walk of the children walks each child in order and keeps their number |
| Cookbook.TopDownShape | examples/cookbook.py:25-29 | pre-order rewrite, then the head kept and the other elements walked, then the rule again on the rebuilt node |
| Cookbook.TopDownFuelMonotone | examples/cookbook.py:25-29 | more fuel never changes the outcome of a walk |
| Cookbook.WalkChildrenFuelMonotone | examples/cookbook.py:28 | the same for the walk of the children |
| Cookbook.TopDownFuelSuffices | examples/cookbook.py:25-29 | fuel equal to the tree's height suffices for a rule that never deepens a tree |
| Cookbook.WalkChildrenFuelSuffices | examples/cookbook.py:28 | the same for the children |
| Cookbook.Var | examples/cookbook.py:33-34 | `var(name)` is always a variable pattern, named by `name` after the `$` |
| Cookbook.VarBinds | examples/cookbook.py:33-34 | a fresh `var` binds the subtree under `"$name"`; a repeated one accepts exactly its bound subtree |
| Cookbook.Op | examples/cookbook.py:37-38 | `op(name, *args)` is the tuple headed by name and followed by args |
| Cookbook.IsOp | examples/cookbook.py:41-42 | true exactly for tuples headed by name; an error exactly on `()` |
| Cookbook.IsOpOfOp | examples/cookbook.py:37-42 | `is_op(name)` recognises exactly the trees `op(name, ...)` builds |
| Cookbook.IsSymbol | examples/cookbook.py:45-46 | definition: a string atom that does not start with `$` |
| Cookbook.SymbolMatchesLiterally | examples/cookbook.py:45-46 | the symbols are the strings the matcher does not read as variables; apart from `"_"`, such a pattern matches only its own atom |
| Cookbook.IsNumber | examples/cookbook.py:49-50 | definition: `is_type` over int, float and complex |
| Cookbook.IsNumberExactly | examples/cookbook.py:49-50 | `is_number` holds exactly of int, float and complex atoms, all of which are literals |
| Cookbook.IsZero | examples/cookbook.py:53-54 | definition: an atom whose numeric value under Python's `==` is 0 |
| Cookbook.IsOne | examples/cookbook.py:57-58 | definition: an atom whose numeric value under Python's `==` is 1 |
| Cookbook.ZeroAndOneExactly | examples/cookbook.py:53-58 | `is_zero` and `is_one` hold exactly of the atoms equal to 0 or to 1 under Python's `==`, and never both |
| Cookbook.AnyHolds | examples/cookbook.py:65-66 | `where_any` holds exactly when some predicate holds |
| Cookbook.WhereAny | examples/cookbook.py:65-66 | definition: the guard that holds when some predicate holds on the arguments |
| Cookbook.Negate | examples/cookbook.py:69-70 | definition: the guard that holds when the predicate does not |
| Cookbook.NegateLaws | examples/cookbook.py:65-70 | double negation is the identity; negated `where_any` means no predicate holds |
| Cookbook.WhereAllAsWritten | examples/cookbook.py:61-62 | definition: `where_all` as written, the guard that always accepts without calling a predicate |
| Cookbook.WhereAllAsWrittenAccepts | examples/cookbook.py:61-62 | `where_all` as written accepts even when a predicate rejects |
| Cookbook.AllHold | examples/cookbook.py:61-62 | the intended `where_all` holds exactly when every predicate holds |
| Cookbook.WhereAll | examples/cookbook.py:61-62 | definition: the intended `where_all`, the guard that holds when every predicate holds |
| Cookbook.WhereAllDual | examples/cookbook.py:61-66 | the intended `where_all` holds exactly when no negated predicate holds under `where_any` |
| Scenarios.FixedPointChaining | tests/test_rewrite.py:72-76 | `('a',)` is rewritten through `('b',)` to `('c',)` |
| Scenarios.CommutativeAddZero | tests/test_rewrite.py:14-17 | `('+', 0, 'x')` and `('+', 'x', 0)` both rewrite to `'x'` |
| Scenarios.BottomUpNestedScenario | tests/test_rewrite.py:20-24 | `('+', 0, ('+', 0, 'x'))` becomes `'x'` in one bottom-up application |
| Scenarios.FirstAndAll | tests/test_rewrite.py:27-35 | the rule value `first(double, inc)` gives `('n', 6)` and the rule value `all(inc, double)` gives `('n', 8)` |
| Scenarios.GuardAndNamedVariable | tests/test_rewrite.py:38-44 | built through the builder: `('val', 5)` becomes `('val2', 25)` and `('val', -2)` stays |
| Scenarios.NamedVariableTwiceScenario | tests/test_rewrite.py:47-51 | `('+', 'y', 'y')` becomes `('*', 2, 'y')` and `('+', 'y', 'z')` stays |
| Scenarios.MulZeroScenario | tests/test_rewrite.py:97-101 | `('*', 'x', ('*', 0, 'y'))` collapses to `0` in two driver steps |
| Scenarios.NonApplicationScenarios | tests/test_rewrite.py:104-128 | an arity mismatch, a rule without `then` and `first` with no match all return the input; a one-element predicate pattern never matches an atom, so `rewrite(5, when(is_negative).then(0))` is `5` without calling the predicate |
| Scenarios.PredicatePatternRejects | tests/test_rewrite.py:116-120 | on the one-element tuple `(5,)` the predicate is called and rejects, so the tuple stays; `(-5,)` becomes `0` |
| Scenarios.SwapOperandsScenario | tests/test_rewrite.py:79-82 | `when('+', _, _)` called on `('+', 1, 2)` gives `('+', 2, 1)` |
| Scenarios.LiteralAdditionScenario | tests/test_rewrite.py:85-88 | `rewrite(('+', 2, 3), bottom_up(when('+', is_literal, is_literal).then(add)))` is `5` |
| Scenarios.VariableAcrossSubtreesScenario | tests/test_rewrite.py:91-94 | `$x` bound at the top must match again inside `('*', 2, '$x')`; `('+', 'y', ('*', 2, 'y'))` becomes `('*', 3, 'y')` |
| Scenarios.NestedPatternScenario | tests/test_rewrite.py:143-148 | `when('f', ('g', '$x'))` rewrites `('f', ('g', 'y'))` to `('h', 'y')` |
| Scenarios.NeverMatchingScenario | tests/test_rewrite.py:66-69 | `rewrite(('ok',), when('nope').then(42))` returns `('ok',)` unchanged |
| Scenarios.EmptyTupleScenario | tests/test_rewrite.py:131-140 | `()` becomes `'empty'`, directly and under `bottom_up` |
| Scenarios.SwapEndsMatch | tests/test_rewrite.py:151-156 | the wildcards get keys `_0` and `_2`, the variable `$mid` |
| Scenarios.SwapEndsScenario | tests/test_rewrite.py:151-156 | `('op', 1, 'keep', 2)` becomes `('op', 2, 'keep', 1)` |
| Scenarios.VarOpScenario | examples/cookbook.py:97-101 | `op('+', 'z', 0)` rewrites to `'z'` |
| Scenarios.GuardDemoAsWritten | examples/cookbook.py:104-110 | as written, the rule leaves `5` unchanged; on `(-3,)` the written guard accepts and the intended one rejects |

## Left out

- Strategies.Rewritten: bounded by fuel. The source loops forever when the rules do not reach a fixed point; the model returns `None` once the fuel is spent.
- Strategies.Rewrite: bounded by fuel, for the same reason.
- Cookbook.Repeated: bounded by fuel, for the same reason.
- Cookbook.Repeat: bounded by fuel, for the same reason.
- Cookbook.TopDown: the recursion depth is bounded by fuel, because the rule may produce larger trees to walk. Cookbook.TopDownFuelSuffices names a bound that is enough.
- Cookbook.TopDownRule: returns its input when the walk fails. The source raises `IndexError` instead.
- Rules.Commutative: its own contract states only that there are two rules. What each rule does is stated by Rules.CommutativeLeft and Rules.CommutativeRight.
- Cookbook.IsOp: on `()` the source raises `IndexError`; here that case is `None`.
- Python's numeric cross-type equality (`1 == 1.0 == True`) is not modelled. Atoms are equal only when both the kind and the value agree, except in `is_zero` and `is_one`, which spell Python's `==` out.
- `bool` being a subclass of `int` is not modelled in `is_type`, `is_literal` or `is_number`.
- Floats are mathematical reals: there is no NaN, no rounding and no infinity.
- The exclusion of classes from predicate patterns (`isinstance(pattern, type)`) is not modelled. Such a pattern would be a literal, and class objects are not tree values here.
- Exceptions raised by client guards or transforms, including arity errors, are not modelled. Guards and transforms are total functions on `seq<Tree>`.
- `Wildcard.__repr__` is not modelled, since it is printing only.
- A rule object holds its fields by reference, so a later `where` or `then` changes rules already handed out. `AsRule` takes a snapshot of the fields instead.
- `normalize_commutative` is not modelled: it orders by Python's `str()` rendering.
- The cookbook demos `demo_top_down_normalize` and `demo_commutative_normalization` are not modelled, because they depend on `normalize_commutative`. `demo_repeat_flatten` is not modelled either: its flattening rules match only 3-tuples, so the 4-tuple built at the inner level is not flattened again at the root. `demo_predicates_and_guards` is modelled as written in Scenarios.GuardDemoAsWritten.
- `src/treetransformer/`, `example_rules.py`, `cli.py`, `__init__.py` and the domain example programs are not part of this model.

## Findings

| source | as written | input that shows it | evidently intended | confidence | as-written member | corrected member |
|---|---|---|---|---|---|---|
| examples/cookbook.py:61-62 | `where_all` calls `all`, which the file imports from the engine (line 7). That combinator returns a function object, which is always truthy, so the guard accepts every input and never calls a predicate | `where_all(lambda x: False)(-3)` is truthy; as a guard in `when(var('x'))` on `(-3,)`, the rule doubles `-3` | the builtin `all`: the guard holds exactly when every predicate holds | not executed | Cookbook.WhereAllAsWritten (Cookbook.WhereAllAsWrittenAccepts) | Cookbook.WhereAll (Cookbook.AllHold, Cookbook.WhereAllDual) |

/**
 * The cookbook helpers built on the engine: the local fixed point `repeat`,
 * the traversal `top_down`, the pattern and tree builders `var` and `op`, and
 * the small predicates and guard combinators.
 */
module Cookbook {
  import opened Wrappers
  import opened Trees
  import opened Patterns
  import opened Matcher
  import opened Rules
  import opened Strategies

  // ---------------------------------------------------------------------
  // repeat

  /** `repeat(rule)(t)` with a bound on the number of changes: apply the rule
      at the node until its output equals its input. `None` when more than
      `fuel` changes would be needed. */
  function Repeated(rule: Rule, t: Tree, fuel: nat): (r: Option<Tree>)
    ensures r.Some? ==> rule(r.value) == r.value
    ensures rule(t) == t ==> r == Some(t)
    decreases fuel
  {
    var next := rule(t);
    if next == t then Some(t)
    else if fuel == 0 then None
    else Repeated(rule, next, fuel - 1)
  }

  /** The `while True` loop of `repeat`, reassigning the tree. */
  method Repeat(rule: Rule, tree: Tree, fuel: nat) returns (r: Option<Tree>)
    ensures r == Repeated(rule, tree, fuel)
  {
    var t := tree;
    var budget := fuel;
    while true
      invariant Repeated(rule, tree, fuel) == Repeated(rule, t, budget)
      decreases budget
    {
      var next := rule(t);
      if next == t {
        return Some(t);
      }
      if budget == 0 {
        return None;
      }
      t, budget := next, budget - 1;
    }
  }

  /** `repeat` of one rule is the driver `rewrite` over that single rule. */
  lemma {:induction false} RepeatedIsRewrittenOne(rule: Rule, t: Tree, fuel: nat)
    ensures Repeated(rule, t, fuel) == Rewritten(t, [rule], fuel)
    decreases fuel
  {
    if rule(t) != t {
      ScanFindsFirst([rule], t, 0);
      if fuel > 0 {
        RepeatedIsRewrittenOne(rule, rule(t), fuel - 1);
      }
    }
  }

  /** The driver over several rules is `repeat` of their ordered choice: each
      restart of the scan is one step of `repeat(first(*rules))`. */
  lemma {:induction false} RewrittenIsRepeatedFirst(t: Tree, rules: seq<Rule>, fuel: nat)
    ensures Rewritten(t, rules, fuel) == Repeated(FirstRule(rules), t, fuel)
    decreases fuel
  {
    if !Fixed(t, rules) && fuel > 0 {
      RewrittenIsRepeatedFirst(FirstOf(rules, t), rules, fuel - 1);
    }
  }

  /** More fuel never changes what `repeat` answers. */
  lemma RepeatedFuelMonotone(rule: Rule, t: Tree, n: nat, m: nat)
    requires n <= m && Repeated(rule, t, n).Some?
    ensures Repeated(rule, t, m) == Repeated(rule, t, n)
  {
    RepeatedIsRewrittenOne(rule, t, n);
    RepeatedIsRewrittenOne(rule, t, m);
    RewrittenFuelMonotone(t, [rule], n, m);
  }

  // ---------------------------------------------------------------------
  // top_down

  /** The outcome of a `top_down` walk: a tree; the `IndexError` raised when
      the rule produces `()` (whose head `t2[0]` does not exist); or, in this
      model, exhaustion of the descent bound. */
  datatype Outcome<T> = Done(value: T) | EmptyTuple | OutOfFuel

  /** `top_down(rule)(t)`: apply the rule at the node; if the result is a
      tuple, keep its head and walk the other elements; apply the rule again
      to the rebuilt node. `fuel` bounds the depth of the descent. */
  function TopDown(rule: Rule, t: Tree, fuel: nat): Outcome<Tree>
    decreases fuel, 0, 0
  {
    var t2 := rule(t);
    if !t2.Tup? then Done(rule(t2))
    else if |t2.elems| == 0 then EmptyTuple
    else if fuel == 0 then OutOfFuel
    else
      match WalkChildren(rule, t2.elems[1..], fuel - 1)
      case Done(ws) => Done(rule(Tup([t2.elems[0]] + ws)))
      case EmptyTuple => EmptyTuple
      case OutOfFuel => OutOfFuel
  }

  /** The walks of the children, left to right; the first failure stops the
      rest. */
  function WalkChildren(rule: Rule, cs: seq<Tree>, fuel: nat): Outcome<seq<Tree>>
    decreases fuel, 1, |cs|
  {
    if |cs| == 0 then Done([])
    else
      match TopDown(rule, cs[0], fuel)
      case EmptyTuple => EmptyTuple
      case OutOfFuel => OutOfFuel
      case Done(w) =>
        match WalkChildren(rule, cs[1..], fuel)
        case Done(ws) => Done([w] + ws)
        case EmptyTuple => EmptyTuple
        case OutOfFuel => OutOfFuel
  }

  /** `top_down(rule)` as a rule, for a fuel that is known to suffice on
      every input; a walk that fails returns the input. */
  function TopDownRule(rule: Rule, fuel: nat): Rule
  {
    t => match TopDown(rule, t, fuel) case Done(r) => r case EmptyTuple => t case OutOfFuel => t
  }

  /** For a rule that never deepens a tree, the rule value does not depend on
      the bound once it covers the tree's height: it is the walk's result, or
      the input where the walk hits `()`. */
  lemma TopDownRuleAgrees(rule: Rule, t: Tree, fuel: nat, more: nat)
    requires NonDeepening(rule) && Height(t) <= fuel <= more
    ensures TopDownRule(rule, more)(t) == TopDownRule(rule, fuel)(t)
    ensures TopDown(rule, t, fuel).Done? ==> TopDownRule(rule, fuel)(t) == TopDown(rule, t, fuel).value
    ensures !TopDown(rule, t, fuel).Done? ==> TopDownRule(rule, fuel)(t) == t
  {
    TopDownFuelSuffices(rule, t, fuel);
    TopDownFuelMonotone(rule, t, fuel, more);
  }

  /** When the first application does not produce a tuple, `top_down` is the
      rule applied twice. */
  lemma TopDownNonTuple(rule: Rule, t: Tree, fuel: nat)
    requires !rule(t).Tup?
    ensures TopDown(rule, t, fuel) == Done(rule(rule(t)))
  {
  }

  /** Unlike `bottom_up`, `top_down` does not guard against `()`: when the
      rule produces it, the walk fails. */
  lemma TopDownEmptyTuple(rule: Rule, t: Tree, fuel: nat)
    requires rule(t) == Tup([])
    ensures TopDown(rule, t, fuel) == EmptyTuple
  {
  }

  /** A successful walk of children walks every child, in order, and keeps
      their number. */
  lemma {:induction false} WalkChildrenDone(rule: Rule, cs: seq<Tree>, fuel: nat)
    requires WalkChildren(rule, cs, fuel).Done?
    ensures |WalkChildren(rule, cs, fuel).value| == |cs|
    ensures forall i :: 0 <= i < |cs| ==>
      TopDown(rule, cs[i], fuel) == Done(WalkChildren(rule, cs, fuel).value[i])
    decreases |cs|
  {
    if |cs| > 0 {
      WalkChildrenDone(rule, cs[1..], fuel);
      var ws := WalkChildren(rule, cs, fuel).value;
      var rest := WalkChildren(rule, cs[1..], fuel).value;
      assert ws == [TopDown(rule, cs[0], fuel).value] + rest;
      forall i | 1 <= i < |cs|
        ensures TopDown(rule, cs[i], fuel) == Done(ws[i])
      {
        assert cs[i] == cs[1..][i - 1];
        assert ws[i] == rest[i - 1];
      }
    }
  }

  /** Pre-order, then descent, then post-order: a successful walk of a node
      whose first rewrite is a non-empty tuple keeps that tuple's head, walks
      each of its other elements, and applies the rule to the rebuilt node. */
  lemma TopDownShape(rule: Rule, t: Tree, fuel: nat)
    requires TopDown(rule, t, fuel).Done?
    requires rule(t).Tup?
    ensures |rule(t).elems| > 0 && fuel > 0
    ensures exists ws: seq<Tree> ::
      && |ws| == |rule(t).elems| - 1
      && (forall i :: 0 <= i < |ws| ==> TopDown(rule, rule(t).elems[i + 1], fuel - 1) == Done(ws[i]))
      && TopDown(rule, t, fuel) == Done(rule(Tup([rule(t).elems[0]] + ws)))
  {
    var es := rule(t).elems;
    var ws := WalkChildren(rule, es[1..], fuel - 1).value;
    WalkChildrenDone(rule, es[1..], fuel - 1);
    forall i | 0 <= i < |ws|
      ensures TopDown(rule, es[i + 1], fuel - 1) == Done(ws[i])
    {
      assert es[1..][i] == es[i + 1];
    }
  }

  /** More fuel never changes the outcome of a walk that did not run out. */
  lemma {:induction false} TopDownFuelMonotone(rule: Rule, t: Tree, n: nat, m: nat)
    requires n <= m && !TopDown(rule, t, n).OutOfFuel?
    ensures TopDown(rule, t, m) == TopDown(rule, t, n)
    decreases n, 0, 0
  {
    var t2 := rule(t);
    if t2.Tup? && |t2.elems| > 0 {
      WalkChildrenFuelMonotone(rule, t2.elems[1..], n - 1, m - 1);
    }
  }

  lemma {:induction false} WalkChildrenFuelMonotone(rule: Rule, cs: seq<Tree>, n: nat, m: nat)
    requires n <= m && !WalkChildren(rule, cs, n).OutOfFuel?
    ensures WalkChildren(rule, cs, m) == WalkChildren(rule, cs, n)
    decreases n, 1, |cs|
  {
    if |cs| > 0 {
      TopDownFuelMonotone(rule, cs[0], n, m);
      if TopDown(rule, cs[0], n).Done? {
        WalkChildrenFuelMonotone(rule, cs[1..], n, m);
      }
    }
  }

  /** A rule that never makes a tree deeper. */
  ghost predicate NonDeepening(rule: Rule)
  {
    forall t :: Height(rule(t)) <= Height(t)
  }

  /** Fuel equal to the height of the tree suffices for a rule that never
      makes a tree deeper: the walk then ends in a tree or in the `()`
      error, never by exhaustion. */
  lemma {:induction false} TopDownFuelSuffices(rule: Rule, t: Tree, fuel: nat)
    requires NonDeepening(rule) && Height(t) <= fuel
    ensures !TopDown(rule, t, fuel).OutOfFuel?
    decreases fuel, 0, 0
  {
    var t2 := rule(t);
    if t2.Tup? && |t2.elems| > 0 {
      var cs := t2.elems[1..];
      forall i | 0 <= i < |cs|
        ensures Height(cs[i]) <= fuel - 1
      {
        ElementHeight(t2, i + 1);
        assert cs[i] == t2.elems[i + 1];
      }
      WalkChildrenFuelSuffices(rule, cs, fuel - 1);
    }
  }

  lemma {:induction false} WalkChildrenFuelSuffices(rule: Rule, cs: seq<Tree>, fuel: nat)
    requires NonDeepening(rule) && forall i :: 0 <= i < |cs| ==> Height(cs[i]) <= fuel
    ensures !WalkChildren(rule, cs, fuel).OutOfFuel?
    decreases fuel, 1, |cs|
  {
    if |cs| > 0 {
      TopDownFuelSuffices(rule, cs[0], fuel);
      assert forall i :: 0 <= i < |cs[1..]| ==> cs[1..][i] == cs[i + 1];
      WalkChildrenFuelSuffices(rule, cs[1..], fuel);
    }
  }

  // ---------------------------------------------------------------------
  // var and op

  /** `var(name)`: the pattern string "$name". */
  function Var(name: string): (p: Pattern)
    ensures IsVariable(p) && p.value.s[1..] == name
  {
    Lit(Str("$" + name))
  }

  /** A fresh `var` binds the whole subtree under its own string, and a
      repeated one accepts exactly the subtree it is bound to. */
  lemma VarBinds(name: string, t: Tree, b: Bindings)
    requires WellKeyed(b)
    ensures Get(b, Named("$" + name)).None? ==>
      Match(Var(name), t, b) == Some(b + [(Named("$" + name), t)])
    ensures Get(b, Named("$" + name)).Some? ==>
      (Match(Var(name), t, b).Some? <==> Get(b, Named("$" + name)) == Some(t))
  {
    MatchPrecedence(Var(name), t, b);
  }

  /** `op(name, *args)`: the tuple with head `name` followed by the arguments. */
  function Op(name: Tree, args: seq<Tree>): (t: Tree)
    ensures t.Tup? && |t.elems| == |args| + 1
    ensures t.elems[0] == name && t.elems[1..] == args
  {
    Tup([name] + args)
  }

  // ---------------------------------------------------------------------
  // Predicates

  /** `is_op(name)(t)`: t is a tuple whose head equals `name`. The source
      indexes `t[0]` without checking, so on `()` it raises an error, which
      is `None` here. */
  function IsOp(name: Tree, t: Tree): (r: Option<bool>)
    ensures r.None? <==> t == Tup([])
    ensures r == Some(true) <==> t.Tup? && |t.elems| > 0 && t.elems[0] == name
  {
    if !t.Tup? then Some(false)
    else if |t.elems| == 0 then None
    else Some(t.elems[0] == name)
  }

  /** `is_op` recognises exactly the trees `op` builds with that head. */
  lemma IsOpOfOp(name: Tree, t: Tree)
    ensures (forall args :: IsOp(name, Op(name, args)) == Some(true))
    ensures IsOp(name, t) == Some(true) <==> exists args :: t == Op(name, args)
  {
    if IsOp(name, t) == Some(true) {
      assert t == Op(name, t.elems[1..]);
    }
  }

  /** `is_symbol(x)`: a string that does not start with '$'. */
  predicate IsSymbol(t: Tree)
  {
    t.Atom? && t.value.Str? && !(|t.value.s| > 0 && t.value.s[0] == '$')
  }

  /** The symbols are exactly the string atoms that the matcher, read as a
      pattern, does not treat as a variable; apart from "_", such a string
      pattern matches its own atom and nothing else, binding nothing. */
  lemma SymbolMatchesLiterally(s: string, t: Tree, b: Bindings)
    ensures IsSymbol(Atom(Str(s))) <==> !IsVariable(Lit(Str(s)))
    ensures IsSymbol(Atom(Str(s))) && s != "_" ==>
      Match(Lit(Str(s)), t, b) == if t == Atom(Str(s)) then Some(b) else None
  {
  }

  /** `is_number`: `int`, `float` or `complex`. */
  const IsNumber: Predicate := IsType({IntKind, FloatKind, ComplexKind})

  /** The numbers are the numeric atoms, and every number is a literal. */
  lemma IsNumberExactly(t: Tree)
    ensures IsNumber(t) <==> t.Atom? && (t.value.Int? || t.value.Float? || t.value.Complex?)
    ensures IsNumber(t) ==> IsLiteral(t)
  {
  }

  /** The complex number a numeric atom denotes under Python's `==`
      (`False` and `True` compare as 0 and 1); strings and `None` denote
      none. */
  function Numeric(v: Value): Option<(real, real)>
  {
    match v
    case Int(i) => Some((i as real, 0.0))
    case Float(f) => Some((f, 0.0))
    case Bool(b) => Some((if b then 1.0 else 0.0, 0.0))
    case Complex(re, im) => Some((re, im))
    case Str(_) => None
    case NoneValue => None
  }

  /** `is_zero(x)`: `x == 0`. */
  predicate IsZero(t: Tree)
  {
    t.Atom? && Numeric(t.value) == Some((0.0, 0.0))
  }

  /** `is_one(x)`: `x == 1`. */
  predicate IsOne(t: Tree)
  {
    t.Atom? && Numeric(t.value) == Some((1.0, 0.0))
  }

  /** Exactly the four zero atoms equal 0 and the four unit atoms equal 1; no
      tuple, string or `None` does, and nothing is both. */
  lemma ZeroAndOneExactly(t: Tree)
    ensures IsZero(t) <==> t in {Atom(Int(0)), Atom(Float(0.0)), Atom(Bool(false)), Atom(Complex(0.0, 0.0))}
    ensures IsOne(t) <==> t in {Atom(Int(1)), Atom(Float(1.0)), Atom(Bool(true)), Atom(Complex(1.0, 0.0))}
    ensures !(IsZero(t) && IsOne(t))
  {
  }

  // ---------------------------------------------------------------------
  // Guard combinators

  /** Python's `any` over the predicates applied to the same arguments. */
  function AnyHolds(preds: seq<Guard>, xs: seq<Tree>): (r: bool)
    ensures r <==> exists i :: 0 <= i < |preds| && preds[i](xs)
  {
    if |preds| == 0 then false
    else preds[0](xs) || AnyHolds(preds[1..], xs)
  }

  /** `where_any(*preds)`. */
  function WhereAny(preds: seq<Guard>): Guard
  {
    xs => AnyHolds(preds, xs)
  }

  /** `negate(pred)`. */
  function Negate(pred: Guard): Guard
  {
    xs => !pred(xs)
  }

  /** Negation is an involution, and negating `where_any` gives "no
      predicate holds" (De Morgan). */
  lemma NegateLaws(pred: Guard, preds: seq<Guard>, xs: seq<Tree>)
    ensures Negate(Negate(pred))(xs) == pred(xs)
    ensures Negate(WhereAny(preds))(xs) <==> forall i :: 0 <= i < |preds| ==> !preds[i](xs)
  {
  }

  /** `where_all(*preds)` as written: the name `all` there is the engine's
      combinator, imported at the top of the file, not Python's builtin, so
      the lambda returns the closure `all` builds from the generator, and a
      function object is always truthy. No predicate is ever called. */
  function WhereAllAsWritten(preds: seq<Guard>): Guard
  {
    _ => true
  }

  /** The discrepancy: with a single predicate that rejects everything, the
      guard as written still accepts. */
  lemma WhereAllAsWrittenAccepts(xs: seq<Tree>)
    ensures var reject: Guard := _ => false;
      WhereAllAsWritten([reject])(xs) && !WhereAll([reject])(xs)
  {
    var reject: Guard := _ => false;
    assert [reject][0](xs) == false;
  }

  /** Python's builtin `all` over the predicates applied to the same
      arguments. */
  function AllHold(preds: seq<Guard>, xs: seq<Tree>): (r: bool)
    ensures r <==> forall i :: 0 <= i < |preds| ==> preds[i](xs)
  {
    if |preds| == 0 then true
    else preds[0](xs) && AllHold(preds[1..], xs)
  }

  /** `where_all(*preds)` as intended: every predicate holds. */
  function WhereAll(preds: seq<Guard>): Guard
  {
    xs => AllHold(preds, xs)
  }

  /** The intended `where_all` is the dual of `where_any`: all predicates
      hold exactly when none of their negations does. */
  lemma WhereAllDual(preds: seq<Guard>, xs: seq<Tree>)
    ensures WhereAll(preds)(xs) <==> !WhereAny(Negations(preds))(xs)
  {
    var negs := Negations(preds);
    assert forall i :: 0 <= i < |preds| ==> (negs[i](xs) <==> !preds[i](xs));
  }

  /** Each predicate negated, in order. */
  function Negations(preds: seq<Guard>): (negs: seq<Guard>)
    ensures |negs| == |preds|
    ensures forall i :: 0 <= i < |preds| ==> negs[i] == Negate(preds[i])
  {
    seq(|preds|, i requires 0 <= i < |preds| => Negate(preds[i]))
  }
}

/**
 * Concrete rewrites from the repository's tests and cookbook, derived from
 * the model.
 */
module Scenarios {
  import opened Wrappers
  import opened Trees
  import opened Patterns
  import opened Matcher
  import opened Rules
  import opened Strategies
  import opened Cookbook

  function Sym(s: string): Tree { Atom(Str(s)) }
  function Num(i: int): Tree { Atom(Int(i)) }
  function L(s: string): Pattern { Lit(Str(s)) }

  /** `when('a').then(('b',))` and `when('b').then(('c',))`: the driver
      chains `('a',)` to `('b',)` to `('c',)`. */
  lemma FixedPointChaining()
    ensures
      var r1 := WhenRule([L("a")], None, Some(TransformOf(Constant(Tup([Sym("b")])))));
      var r2 := WhenRule([L("b")], None, Some(TransformOf(Constant(Tup([Sym("c")])))));
      Rewritten(Tup([Sym("a")]), [AsRule(r1), AsRule(r2)], 2) == Some(Tup([Sym("c")]))
  {
    var r1 := WhenRule([L("a")], None, Some(TransformOf(Constant(Tup([Sym("b")])))));
    var r2 := WhenRule([L("b")], None, Some(TransformOf(Constant(Tup([Sym("c")])))));
    var rules := [AsRule(r1), AsRule(r2)];
    var a, b, c := Tup([Sym("a")]), Tup([Sym("b")]), Tup([Sym("c")]);
    assert PlainEq(PTup(r1.pattern), a);
    assert Apply(r1, a) == b;
    HeadMismatch(r1, Str("a"), b);
    assert PlainEq(PTup(r2.pattern), b);
    assert Apply(r2, b) == c;
    HeadMismatch(r1, Str("a"), c);
    HeadMismatch(r2, Str("b"), c);
    RewrittenStep(a, rules, 2, 0);
    RewrittenStep(b, rules, 1, 1);
    assert Fixed(c, rules);
  }

  /** The transform `lambda x: x` of a one-capture rule. */
  function Identity(): Transform
  {
    xs => if |xs| > 0 then xs[0] else Tup([])
  }

  /** On a three-element tuple of atoms, `bottom_up` only rebuilds the node
      and applies the rule once at the root, provided the rule fixes the two
      atom children. */
  lemma BottomUpFlat(rule: Rule, h: Tree, x: Value, y: Value)
    requires rule(Atom(x)) == Atom(x) && rule(Atom(y)) == Atom(y)
    ensures BottomUp(rule, Tup([h, Atom(x), Atom(y)])) == rule(Tup([h, Atom(x), Atom(y)]))
  {
    var t := Tup([h, Atom(x), Atom(y)]);
    BottomUpShape(rule, t);
    BottomUpShape(rule, Atom(x));
    BottomUpShape(rule, Atom(y));
    assert Rebuilt(rule, t).elems == t.elems;
  }

  /** A pattern `(h, v, ...)` of two literals fails on a tuple with head h
      whose second element is not v. */
  lemma SecondMismatch(h: Value, v: Value, p: Pattern, a: Tree, c: Tree)
    requires PlainValue(h) && PlainValue(v) && a != Atom(v)
    ensures Match(PTup([Lit(h), Lit(v), p]), Tup([Atom(h), a, c]), []).None?
  {
    var ps, ts := [Lit(h), Lit(v), p], [Atom(h), a, c];
    assert !PlainEq(ps[1], ts[1]);
    LiteralMatch(h, Atom(h), []);
    LiteralMatch(v, a, []);
    assert ps[1..][0] == Lit(v) && ts[1..][0] == a;
    assert MatchSeq(ps[1..], ts[1..], []).None?;
    assert MatchSeq(ps, ts, []) == MatchSeq(ps[1..], ts[1..], []);
    assert !PlainEq(PTup(ps), Tup(ts));
  }

  /** The two rules of `commutative('+', 0, lambda x: x)`. */
  function AddZero(): seq<WhenRule>
  {
    Commutative(L("+"), Lit(Int(0)), Compute(Identity()))
  }

  lemma AddZeroFixesAtoms(v: Value)
    ensures AsRule(AddZero()[0])(Atom(v)) == Atom(v)
    ensures AsRule(AddZero()[1])(Atom(v)) == Atom(v)
    ensures BottomUp(AsRule(AddZero()[0]), Atom(v)) == Atom(v)
    ensures BottomUp(AsRule(AddZero()[1]), Atom(v)) == Atom(v)
  {
    AtomsAreFixed(AddZero()[0], v);
    AtomsAreFixed(AddZero()[1], v);
  }

  /** `commutative('+', 0, lambda x: x)` under `bottom_up`: both
      `('+', 0, 'x')` and `('+', 'x', 0)` rewrite to `'x'`. */
  lemma CommutativeAddZero()
    ensures
      var rules := [BottomUpRule(AsRule(AddZero()[0])), BottomUpRule(AsRule(AddZero()[1]))];
      && Rewritten(Tup([Sym("+"), Num(0), Sym("x")]), rules, 1) == Some(Sym("x"))
      && Rewritten(Tup([Sym("+"), Sym("x"), Num(0)]), rules, 1) == Some(Sym("x"))
  {
    var r0, r1 := AsRule(AddZero()[0]), AsRule(AddZero()[1]);
    var rules := [BottomUpRule(r0), BottomUpRule(r1)];
    var left, right := Tup([Sym("+"), Num(0), Sym("x")]), Tup([Sym("+"), Sym("x"), Num(0)]);
    AddZeroFixesAtoms(Int(0));
    AddZeroFixesAtoms(Str("x"));
    CommutativeLeft(Str("+"), Int(0), Compute(Identity()), Sym("x"));
    CommutativeRight(Str("+"), Int(0), Compute(Identity()), Sym("x"));
    SecondMismatch(Str("+"), Int(0), Wildcard, Sym("x"), Num(0));
    assert r0(right) == right;
    BottomUpFlat(r0, Sym("+"), Int(0), Str("x"));
    BottomUpFlat(r0, Sym("+"), Str("x"), Int(0));
    BottomUpFlat(r1, Sym("+"), Str("x"), Int(0));
    assert rules[0](left) == Sym("x");
    assert rules[0](right) == right;
    assert rules[1](right) == Sym("x");
    assert Fixed(Sym("x"), rules);
    RewrittenStep(left, rules, 1, 0);
    RewrittenStep(right, rules, 1, 1);
  }

  /** A pattern `(h, p)` with a literal head and a capturing second position
      binds the second element under "_0". */
  lemma HeadAndCapture(h: Value, p: Pattern, a: Tree)
    requires PlainValue(h) && Captures(p, a)
    ensures Match(PTup([Lit(h), p]), Tup([Atom(h), a]), []) == Some([(Anon(0), a)])
    ensures Values([(Anon(0), a)]) == [a]
  {
    var ps, ts := [Lit(h), p], [Atom(h), a];
    assert !PlainEq(ps[1], ts[1]);
    LiteralMatch(h, Atom(h), []);
    CaptureAppends(p, a, []);
    assert ps[1..] == [p] && ts[1..] == [a];
    assert MatchSeq([p], [a], []) == Some([(Anon(0), a)]);
  }

  /** `lambda n: ('n', f(n))` on an integer argument. */
  function Tagged(f: int -> int): Transform
  {
    (xs: seq<Tree>) => if |xs| > 0 && xs[0].Atom? && xs[0].value.Int? then Tup([Sym("n"), Num(f(xs[0].value.i))]) else Tup([])
  }

  /** `when('n', is_type(int)).then(...)`. */
  function CounterRule(f: int -> int): Rule
  {
    AsRule(WhenRule([L("n"), Pred(IsType({IntKind}))], None, Some(Tagged(f))))
  }

  lemma CounterRuleApplies(f: int -> int, i: int)
    ensures CounterRule(f)(Tup([Sym("n"), Num(i)])) == Tup([Sym("n"), Num(f(i))])
  {
    HeadAndCapture(Str("n"), Pred(IsType({IntKind})), Num(i));
  }

  /** `first(r_double, r_inc)(('n', 3)) == ('n', 6)` and
      `all(r_inc, r_double)(('n', 3)) == ('n', 8)`. */
  lemma FirstAndAll()
    ensures
      var inc, double := CounterRule(n => n + 1), CounterRule(n => n * 2);
      && FirstRule([double, inc])(Tup([Sym("n"), Num(3)])) == Tup([Sym("n"), Num(6)])
      && AllRule([inc, double])(Tup([Sym("n"), Num(3)])) == Tup([Sym("n"), Num(8)])
  {
    var inc, double := CounterRule(n => n + 1), CounterRule(n => n * 2);
    CounterRuleApplies(n => n + 1, 3);
    CounterRuleApplies(n => n * 2, 3);
    CounterRuleApplies(n => n * 2, 4);
    ScanFindsFirst([double, inc], Tup([Sym("n"), Num(3)]), 0);
    AllOfBase(inc, Tup([Sym("n"), Num(3)]));
    assert [inc, double][..1] == [inc];
  }

  /** A pattern `(h, '$name')` binds the second element under its name,
      unless that element is the string '$name' itself, when plain equality
      of the whole tuple wins and nothing is bound. */
  lemma HeadAndVariable(h: Value, name: string, a: Tree)
    requires PlainValue(h) && IsVariable(Lit(Str(name))) && a != Atom(Str(name))
    ensures Match(PTup([Lit(h), Lit(Str(name))]), Tup([Atom(h), a]), []) == Some([(Named(name), a)])
    ensures Values([(Named(name), a)]) == [a]
  {
    var ps, ts := [Lit(h), Lit(Str(name))], [Atom(h), a];
    LiteralMatch(h, Atom(h), []);
    assert ps[1..] == [Lit(Str(name))] && ts[1..] == [a];
    assert Match(Lit(Str(name)), a, []) == Some([(Named(name), a)]);
    assert MatchSeq(ps[1..], ts[1..], []) == Some([(Named(name), a)]);
    assert !PlainEq(ps[1], ts[1]);
  }

  /** `lambda x: isinstance(x, int) and x > 0`; on integer arguments it is
      also the cookbook demo's `lambda x: x > 0`. */
  function PositiveInt(): Guard
  {
    (xs: seq<Tree>) => |xs| > 0 && xs[0].Atom? && xs[0].value.Int? && xs[0].value.i > 0
  }

  /** `lambda x: ('val2', x * x)`. */
  function Square(): Transform
  {
    (xs: seq<Tree>) => if |xs| > 0 && xs[0].Atom? && xs[0].value.Int? then Tup([Sym("val2"), Num(xs[0].value.i * xs[0].value.i)]) else Tup([])
  }

  function SquareRule(): WhenRule
  {
    WhenRule([L("val"), L("$x")], Some(PositiveInt()), Some(Square()))
  }

  /** The guarded rule squares a positive int and fixes every other
      `('val', n)`; its output is fixed. */
  lemma SquareRuleApplies(i: int)
    ensures Apply(SquareRule(), Tup([Sym("val"), Num(i)])) ==
      if i > 0 then Tup([Sym("val2"), Num(i * i)]) else Tup([Sym("val"), Num(i)])
    ensures Apply(SquareRule(), Tup([Sym("val2"), Num(i * i)])) == Tup([Sym("val2"), Num(i * i)])
  {
    HeadAndVariable(Str("val"), "$x", Num(i));
    HeadMismatch(SquareRule(), Str("val"), Tup([Sym("val2"), Num(i * i)]));
  }

  /** `when('val', '$x').where(...).then(...)`, built through the fluent
      interface and called: `('val', 5)` becomes `('val2', 25)` and
      `('val', -2)`, rejected by the guard, is returned unchanged; both
      results are fixed points of the driver. */
  method GuardAndNamedVariable() returns (r: Tree, s: Tree)
    ensures r == Tup([Sym("val2"), Num(25)]) && s == Tup([Sym("val"), Num(-2)])
    ensures Rewritten(Tup([Sym("val"), Num(5)]), [AsRule(SquareRule())], 1) == Some(r)
    ensures Rewritten(Tup([Sym("val"), Num(-2)]), [AsRule(SquareRule())], 0) == Some(s)
  {
    var w := new When([L("val"), L("$x")]);
    w := w.Where(PositiveInt());
    w := w.Then(Compute(Square()));
    assert w.Current() == SquareRule();
    SquareRuleApplies(5);
    SquareRuleApplies(-2);
    r := w.Call(Tup([Sym("val"), Num(5)]));
    s := w.Call(Tup([Sym("val"), Num(-2)]));
    RewrittenStep(Tup([Sym("val"), Num(5)]), [AsRule(SquareRule())], 1, 0);
  }

  /** `lambda a, mid, b: ('op', b, mid, a)`. */
  function SwapEnds(): Transform
  {
    (xs: seq<Tree>) => if |xs| == 3 then Tup([Sym("op"), xs[2], xs[1], xs[0]]) else Tup([])
  }

  lemma SwapEndsVariable()
    ensures Match(L("$mid"), Sym("keep"), [(Anon(0), Num(1))])
            == Some([(Anon(0), Num(1)), (Named("$mid"), Sym("keep"))])
  {
    var b1 := [(Anon(0), Num(1))];
    assert Get(b1, Named("$mid")) == None;
    var b2 := b1 + [(Named("$mid"), Sym("keep"))];
    assert Put(b1, Named("$mid"), Sym("keep")) == b2;
    assert IsVariable(L("$mid")) && L("$mid").value.s == "$mid";
    assert Match(L("$mid"), Sym("keep"), b1) == Some(b2);
    assert b2 == [(Anon(0), Num(1)), (Named("$mid"), Sym("keep"))];
  }

  lemma SwapEndsLastWildcard()
    ensures MatchSeq([Wildcard], [Num(2)], [(Anon(0), Num(1)), (Named("$mid"), Sym("keep"))])
            == Some([(Anon(0), Num(1)), (Named("$mid"), Sym("keep")), (Anon(2), Num(2))])
  {
    var b2 := [(Anon(0), Num(1)), (Named("$mid"), Sym("keep"))];
    assert Get(b2, Anon(2)) == None;
    var b3 := b2 + [(Anon(2), Num(2))];
    assert Put(b2, Anon(2), Num(2)) == b3;
    assert Match(Wildcard, Num(2), b2) == Some(b3);
    assert [Wildcard][1..] == [] && [Num(2)][1..] == [];
    assert MatchSeq([Wildcard], [Num(2)], b2) == MatchSeq([], [], b3);
    assert b3 == [(Anon(0), Num(1)), (Named("$mid"), Sym("keep")), (Anon(2), Num(2))];
  }

  /** The descent of `('$mid', _)` through `('keep', 2)` after the first
      wildcard has bound "_0". */
  lemma SwapEndsTail()
    ensures MatchSeq([L("$mid"), Wildcard], [Sym("keep"), Num(2)], [(Anon(0), Num(1))])
            == Some([(Anon(0), Num(1)), (Named("$mid"), Sym("keep")), (Anon(2), Num(2))])
  {
    SwapEndsVariable();
    SwapEndsLastWildcard();
    assert [L("$mid"), Wildcard][1..] == [Wildcard] && [Sym("keep"), Num(2)][1..] == [Num(2)];
  }

  /** After the head, the first wildcard binds "_0" and the rest follows. */
  lemma SwapEndsAfterHead()
    ensures MatchSeq([Wildcard, L("$mid"), Wildcard], [Num(1), Sym("keep"), Num(2)], [])
            == Some([(Anon(0), Num(1)), (Named("$mid"), Sym("keep")), (Anon(2), Num(2))])
  {
    var ps, ts := [Wildcard, L("$mid"), Wildcard], [Num(1), Sym("keep"), Num(2)];
    assert Match(Wildcard, Num(1), []) == Some([(Anon(0), Num(1))]);
    assert ps[1..] == [L("$mid"), Wildcard] && ts[1..] == [Sym("keep"), Num(2)];
    SwapEndsTail();
  }

  /** A literal head followed by a descent that succeeds, with a first
      element that is not plainly equal, matches with that descent's
      bindings. */
  lemma HeadThenRest(h: Value, ps: seq<Pattern>, ts: seq<Tree>, b: Bindings)
    requires PlainValue(h) && |ps| == |ts| > 0 && !PlainEq(ps[0], ts[0])
    requires MatchSeq(ps, ts, []) == Some(b)
    ensures Match(PTup([Lit(h)] + ps), Tup([Atom(h)] + ts), []) == Some(b)
  {
    var ps', ts' := [Lit(h)] + ps, [Atom(h)] + ts;
    assert ps'[1] == ps[0] && ts'[1] == ts[0];
    assert !PlainEq(PTup(ps'), Tup(ts'));
    LiteralMatch(h, Atom(h), []);
    assert ps'[1..] == ps && ts'[1..] == ts;
  }

  /** `when('op', _, '$mid', _)`: the two wildcards get the generated keys
      "_0" and "_2" (the dictionary holds 0 and then 2 entries when they are
      met) and the variable its own name. */
  lemma SwapEndsMatch()
    ensures Match(PTup([L("op"), Wildcard, L("$mid"), Wildcard]), Tup([Sym("op"), Num(1), Sym("keep"), Num(2)]), [])
            == Some([(Anon(0), Num(1)), (Named("$mid"), Sym("keep")), (Anon(2), Num(2))])
  {
    var ps, ts := [Wildcard, L("$mid"), Wildcard], [Num(1), Sym("keep"), Num(2)];
    assert [L("op")] + ps == [L("op"), Wildcard, L("$mid"), Wildcard];
    assert [Sym("op")] + ts == [Sym("op"), Num(1), Sym("keep"), Num(2)];
    SwapEndsAfterHead();
    HeadThenRest(Str("op"), ps, ts, [(Anon(0), Num(1)), (Named("$mid"), Sym("keep")), (Anon(2), Num(2))]);
  }

  /** ... so the transform receives the three values in pattern order, and
      `('op', 1, 'keep', 2)` becomes `('op', 2, 'keep', 1)`. */
  lemma SwapEndsScenario()
    ensures Apply(WhenRule([L("op"), Wildcard, L("$mid"), Wildcard], None, Some(SwapEnds())),
                  Tup([Sym("op"), Num(1), Sym("keep"), Num(2)]))
            == Tup([Sym("op"), Num(2), Sym("keep"), Num(1)])
  {
    SwapEndsMatch();
    var b3 := [(Anon(0), Num(1)), (Named("$mid"), Sym("keep")), (Anon(2), Num(2))];
    assert Values(b3) == [Num(1), Sym("keep"), Num(2)];
  }

  /** `when().then('empty')` rewrites `()` to `'empty'`, directly and under
      `bottom_up`. */
  lemma EmptyTupleScenario()
    ensures
      var rule := WhenRule([], None, Some(TransformOf(Constant(Sym("empty")))));
      && Rewritten(Tup([]), [AsRule(rule)], 1) == Some(Sym("empty"))
      && Rewritten(Tup([]), [BottomUpRule(AsRule(rule))], 1) == Some(Sym("empty"))
  {
    var rule := WhenRule([], None, Some(TransformOf(Constant(Sym("empty")))));
    EmptyPatternMatchesOnlyEmptyTuple(Tup([]));
    AtomsAreFixed(rule, Str("empty"));
    BottomUpShape(AsRule(rule), Tup([]));
    BottomUpShape(AsRule(rule), Sym("empty"));
    RewrittenStep(Tup([]), [AsRule(rule)], 1, 0);
    RewrittenStep(Tup([]), [BottomUpRule(AsRule(rule))], 1, 0);
  }

  /** `bottom_up(when('+', 0, _).then(lambda x: x))` simplifies
      `('+', 0, ('+', 0, 'x'))` to `'x'` in a single application: the inner
      sum is simplified before the outer one is matched. */
  lemma BottomUpNestedScenario()
    ensures
      var rule := BottomUpRule(AsRule(AddZero()[0]));
      var inner := Tup([Sym("+"), Num(0), Sym("x")]);
      && rule(Tup([Sym("+"), Num(0), inner])) == Sym("x")
      && Rewritten(Tup([Sym("+"), Num(0), inner]), [rule], 1) == Some(Sym("x"))
  {
    var r0 := AsRule(AddZero()[0]);
    var inner := Tup([Sym("+"), Num(0), Sym("x")]);
    var outer := Tup([Sym("+"), Num(0), inner]);
    AddZeroFixesAtoms(Int(0));
    AddZeroFixesAtoms(Str("x"));
    CommutativeLeft(Str("+"), Int(0), Compute(Identity()), Sym("x"));
    BottomUpFlat(r0, Sym("+"), Int(0), Str("x"));
    BottomUpShape(r0, outer);
    var n := Rebuilt(r0, outer);
    assert n.elems == [Sym("+"), Num(0), Sym("x")];
    assert BottomUp(r0, outer) == Sym("x");
    RewrittenStep(outer, [BottomUpRule(r0)], 1, 0);
  }

  /** The two rules of `commutative('*', 0, 0)`. */
  function MulZero(): seq<WhenRule>
  {
    Commutative(L("*"), Lit(Int(0)), Constant(Num(0)))
  }

  lemma MulZeroFixesAtoms(v: Value)
    ensures BottomUp(AsRule(MulZero()[0]), Atom(v)) == Atom(v)
    ensures BottomUp(AsRule(MulZero()[1]), Atom(v)) == Atom(v)
  {
    AtomsAreFixed(MulZero()[0], v);
    AtomsAreFixed(MulZero()[1], v);
  }

  /** The first driver step on `('*', 'x', ('*', 0, 'y'))`: the first rule
      collapses the inner product, and nothing matches at the root. */
  lemma MulZeroFirstStep()
    ensures
      var r0 := AsRule(MulZero()[0]);
      BottomUp(r0, Tup([Sym("*"), Sym("x"), Tup([Sym("*"), Num(0), Sym("y")])])) == Tup([Sym("*"), Sym("x"), Num(0)])
  {
    var r0 := AsRule(MulZero()[0]);
    var inner := Tup([Sym("*"), Num(0), Sym("y")]);
    var outer := Tup([Sym("*"), Sym("x"), inner]);
    MulZeroFixesAtoms(Int(0));
    MulZeroFixesAtoms(Str("x"));
    MulZeroFixesAtoms(Str("y"));
    CommutativeLeft(Str("*"), Int(0), Constant(Num(0)), Sym("y"));
    BottomUpFlat(r0, Sym("*"), Int(0), Str("y"));
    assert BottomUp(r0, inner) == Num(0);
    BottomUpShape(r0, outer);
    var n := Rebuilt(r0, outer);
    assert n.elems == [Sym("*"), Sym("x"), Num(0)];
    SecondMismatch(Str("*"), Int(0), Wildcard, Sym("x"), Num(0));
  }

  /** `commutative('*', 0, 0)` under `bottom_up` collapses
      `('*', 'x', ('*', 0, 'y'))` to `0` in two driver steps: the first
      rule simplifies the inner product, then the second rule the outer
      one. */
  lemma MulZeroScenario()
    ensures
      var rules := [BottomUpRule(AsRule(MulZero()[0])), BottomUpRule(AsRule(MulZero()[1]))];
      Rewritten(Tup([Sym("*"), Sym("x"), Tup([Sym("*"), Num(0), Sym("y")])]), rules, 2) == Some(Num(0))
  {
    var r0, r1 := AsRule(MulZero()[0]), AsRule(MulZero()[1]);
    var rules := [BottomUpRule(r0), BottomUpRule(r1)];
    var expr := Tup([Sym("*"), Sym("x"), Tup([Sym("*"), Num(0), Sym("y")])]);
    var mid := Tup([Sym("*"), Sym("x"), Num(0)]);
    MulZeroFirstStep();
    MulZeroFixesAtoms(Int(0));
    MulZeroFixesAtoms(Str("x"));
    SecondMismatch(Str("*"), Int(0), Wildcard, Sym("x"), Num(0));
    BottomUpFlat(r0, Sym("*"), Str("x"), Int(0));
    BottomUpFlat(r1, Sym("*"), Str("x"), Int(0));
    CommutativeRight(Str("*"), Int(0), Constant(Num(0)), Sym("x"));
    assert rules[0](expr) == mid;
    assert rules[0](mid) == mid;
    assert rules[1](mid) == Num(0);
    assert Fixed(Num(0), rules);
    RewrittenStep(expr, rules, 2, 0);
    RewrittenStep(mid, rules, 1, 1);
  }

  /** `(h, '$name', v)` against `(h, a, v)` binds a under its name. */
  lemma HeadVariableLiteral(h: Value, name: string, v: Value, a: Tree)
    requires PlainValue(h) && PlainValue(v) && IsVariable(Lit(Str(name))) && a != Atom(Str(name))
    ensures Match(PTup([Lit(h), Lit(Str(name)), Lit(v)]), Tup([Atom(h), a, Atom(v)]), []) == Some([(Named(name), a)])
  {
    var ps, ts := [Lit(h), Lit(Str(name)), Lit(v)], [Atom(h), a, Atom(v)];
    var b := [(Named(name), a)];
    assert !PlainEq(ps[1], ts[1]);
    LiteralMatch(h, Atom(h), []);
    LiteralMatch(v, Atom(v), b);
    assert Match(Lit(Str(name)), a, []) == Some(b);
    assert ps[1..] == [Lit(Str(name)), Lit(v)] && ts[1..] == [a, Atom(v)];
    assert ps[1..][1..] == [Lit(v)] && ts[1..][1..] == [Atom(v)];
    assert MatchSeq([Lit(v)], [Atom(v)], b) == Some(b);
    assert MatchSeq(ps[1..], ts[1..], []) == Some(b);
  }

  /** `rewrite(op('+', 'z', 0), bottom_up(when('+', var('x'), 0).then(lambda x: x)))`
      gives `'z'`. */
  lemma VarOpScenario()
    ensures
      var rule := WhenRule([L("+"), Var("x"), Lit(Int(0))], None, Some(Identity()));
      Rewritten(Op(Sym("+"), [Sym("z"), Num(0)]), [BottomUpRule(AsRule(rule))], 1) == Some(Sym("z"))
  {
    var rule := WhenRule([L("+"), Var("x"), Lit(Int(0))], None, Some(Identity()));
    var expr := Op(Sym("+"), [Sym("z"), Num(0)]);
    assert expr == Tup([Sym("+"), Sym("z"), Num(0)]);
    assert Var("x") == L("$x");
    HeadVariableLiteral(Str("+"), "$x", Int(0), Sym("z"));
    assert Values([(Named("$x"), Sym("z"))]) == [Sym("z")];
    AtomsAreFixed(rule, Str("z"));
    AtomsAreFixed(rule, Int(0));
    BottomUpFlat(AsRule(rule), Sym("+"), Str("z"), Int(0));
    BottomUpShape(AsRule(rule), Sym("z"));
    RewrittenStep(expr, [BottomUpRule(AsRule(rule))], 1, 0);
  }

  /** `lambda x: x * 2`. */
  function Double(): Transform
  {
    (xs: seq<Tree>) => if |xs| > 0 && xs[0].Atom? && xs[0].value.Int? then Num(2 * xs[0].value.i) else Tup([])
  }

  /** The cookbook's guard demo as written: `when(var('x'))` is the 1-tuple
      pattern `('$x',)`, so the rule leaves the atom 5 unchanged (the demo
      expects 10). On the 1-tuple `(-3,)` the guard built by `where_all`
      accepts, so `-3` is doubled, while the intended guard rejects it. */
  lemma GuardDemoAsWritten()
    ensures
      var written := WhenRule([Var("x")], Some(WhereAllAsWritten([IsIntArgument(), PositiveInt()])), Some(Double()));
      var intended := WhenRule([Var("x")], Some(WhereAll([IsIntArgument(), PositiveInt()])), Some(Double()));
      && Rewritten(Num(5), [AsRule(written)], 0) == Some(Num(5))
      && Apply(written, Tup([Num(-3)])) == Num(-6)
      && Apply(intended, Tup([Num(-3)])) == Tup([Num(-3)])
      && Apply(intended, Tup([Num(5)])) == Num(10)
  {
    var written := WhenRule([Var("x")], Some(WhereAllAsWritten([IsIntArgument(), PositiveInt()])), Some(Double()));
    AtomsAreFixed(written, Int(5));
    GuardOnOneTuple(WhereAllAsWritten([IsIntArgument(), PositiveInt()]), -3);
    GuardOnOneTuple(WhereAll([IsIntArgument(), PositiveInt()]), -3);
    GuardOnOneTuple(WhereAll([IsIntArgument(), PositiveInt()]), 5);
  }

  /** `when(var('x')).where(guard).then(lambda x: x * 2)` on `(i,)`: doubled
      when the guard accepts `[i]`, left as it is otherwise. */
  lemma GuardOnOneTuple(guard: Guard, i: int)
    ensures Apply(WhenRule([Var("x")], Some(guard), Some(Double())), Tup([Num(i)]))
            == if guard([Num(i)]) then Num(2 * i) else Tup([Num(i)])
  {
    VariableAlone("$x", Num(i));
    assert Var("x") == L("$x");
  }

  /** `lambda x: isinstance(x, int)`. */
  function IsIntArgument(): Guard
  {
    (xs: seq<Tree>) => |xs| > 0 && xs[0].Atom? && xs[0].value.Int?
  }

  /** The 1-tuple pattern `('$name',)` binds the element of a 1-tuple. */
  lemma VariableAlone(name: string, a: Tree)
    requires IsVariable(Lit(Str(name))) && a != Atom(Str(name))
    ensures Match(PTup([Lit(Str(name))]), Tup([a]), []) == Some([(Named(name), a)])
    ensures Values([(Named(name), a)]) == [a]
  {
    var ps, ts := [Lit(Str(name))], [a];
    assert !PlainEq(ps[0], ts[0]);
    assert Match(Lit(Str(name)), a, []) == Some([(Named(name), a)]);
    assert ps[1..] == [] && ts[1..] == [];
    assert MatchSeq(ps, ts, []) == MatchSeq([], [], [(Named(name), a)]);
    assert !PlainEq(PTup(ps), Tup(ts));
  }

  /** `(h, '$name', '$name')` against `(h, a, a)`: the first occurrence
      binds a, the second finds the same tree and adds nothing. */
  lemma RepeatedVariableBinds(h: Value, name: string, a: Tree)
    requires PlainValue(h) && IsVariable(Lit(Str(name))) && a != Atom(Str(name))
    ensures Match(PTup([Lit(h), Lit(Str(name)), Lit(Str(name))]), Tup([Atom(h), a, a]), []) == Some([(Named(name), a)])
  {
    var v := Lit(Str(name));
    var ps, ts := [Lit(h), v, v], [Atom(h), a, a];
    var b := [(Named(name), a)];
    assert !PlainEq(ps[1], ts[1]);
    LiteralMatch(h, Atom(h), []);
    assert Match(v, a, []) == Some(b);
    assert Get(b, Named(name)) == Some(a);
    assert Match(v, a, b) == Some(b);
    assert ps[1..] == [v, v] && ts[1..] == [a, a];
    assert ps[1..][1..] == [v] && ts[1..][1..] == [a];
    assert MatchSeq([v], [a], b) == Some(b);
    assert MatchSeq(ps[1..], ts[1..], []) == Some(b);
  }

  /** `lambda x: ('*', 2, x)`. */
  function TwiceOf(): Transform
  {
    (xs: seq<Tree>) => if |xs| > 0 then Tup([Sym("*"), Num(2), xs[0]]) else Tup([])
  }

  /** `when('+', '$x', '$x')`: `('+', 'y', 'y')` becomes `('*', 2, 'y')`
      and `('+', 'y', 'z')` is left as it is. */
  lemma NamedVariableTwiceScenario()
    ensures
      var rule := WhenRule([L("+"), L("$x"), L("$x")], None, Some(TwiceOf()));
      && Rewritten(Tup([Sym("+"), Sym("y"), Sym("y")]), [AsRule(rule)], 1) == Some(Tup([Sym("*"), Num(2), Sym("y")]))
      && Rewritten(Tup([Sym("+"), Sym("y"), Sym("z")]), [AsRule(rule)], 0) == Some(Tup([Sym("+"), Sym("y"), Sym("z")]))
  {
    var rule := WhenRule([L("+"), L("$x"), L("$x")], None, Some(TwiceOf()));
    var yy := Tup([Sym("+"), Sym("y"), Sym("y")]);
    RepeatedVariableBinds(Str("+"), "$x", Sym("y"));
    assert Values([(Named("$x"), Sym("y"))]) == [Sym("y")];
    assert Apply(rule, yy) == Tup([Sym("*"), Num(2), Sym("y")]);
    HeadMismatch(rule, Str("+"), Tup([Sym("*"), Num(2), Sym("y")]));
    RewrittenStep(yy, [AsRule(rule)], 1, 0);
    NonlinearVariable(Str("+"), L("$x"), Sym("y"), Sym("z"));
  }

  /** `lambda x: isinstance(x, int) and x < 0`. */
  function IsNegative(): Predicate
  {
    (t: Tree) => t.Atom? && t.value.Int? && t.value.i < 0
  }

  /** Non-applications from the tests: an arity mismatch, a rule without
      `then`, and `first` when no rule matches all return the input. So does
      `when(is_negative).then(0)` on the atom 5: its pattern is the
      one-element tuple `(is_negative,)`, which never matches an atom, so the
      predicate is not called at all. */
  lemma NonApplicationScenarios()
    ensures Apply(WhenRule([L("+"), Wildcard, Wildcard], None, Some(TransformOf(Constant(Num(0))))), Tup([Sym("+"), Num(1)]))
            == Tup([Sym("+"), Num(1)])
    ensures Apply(WhenRule([L("tag"), Wildcard], None, None), Tup([Sym("tag"), Num(1)])) == Tup([Sym("tag"), Num(1)])
    ensures Apply(WhenRule([Pred(IsNegative())], None, Some(TransformOf(Constant(Num(0))))), Num(5)) == Num(5)
    ensures
      var r1 := AsRule(WhenRule([L("never")], None, Some(TransformOf(Constant(Sym("matched1"))))));
      var r2 := AsRule(WhenRule([L("also_never")], None, Some(TransformOf(Constant(Sym("matched2"))))));
      FirstOf([r1, r2], Tup([Sym("other")])) == Tup([Sym("other")])
  {
    var arity := WhenRule([L("+"), Wildcard, Wildcard], None, Some(TransformOf(Constant(Num(0)))));
    if Apply(arity, Tup([Sym("+"), Num(1)])) != Tup([Sym("+"), Num(1)]) {
      ApplyChanges(arity, Tup([Sym("+"), Num(1)]));
    }
    AtomsAreFixed(WhenRule([Pred(IsNegative())], None, Some(TransformOf(Constant(Num(0))))), Int(5));
    var w1 := WhenRule([L("never")], None, Some(TransformOf(Constant(Sym("matched1")))));
    var w2 := WhenRule([L("also_never")], None, Some(TransformOf(Constant(Sym("matched2")))));
    HeadMismatch(w1, Str("never"), Tup([Sym("other")]));
    HeadMismatch(w2, Str("also_never"), Tup([Sym("other")]));
    assert Fixed(Tup([Sym("other")]), [AsRule(w1), AsRule(w2)]);
  }

  /** The case the test's name describes: on the one-element tuple `(5,)`
      the predicate is called and rejects, so the rule leaves it as it is. */
  lemma PredicatePatternRejects()
    ensures Apply(WhenRule([Pred(IsNegative())], None, Some(TransformOf(Constant(Num(0))))), Tup([Num(5)]))
            == Tup([Num(5)])
    ensures Apply(WhenRule([Pred(IsNegative())], None, Some(TransformOf(Constant(Num(0))))), Tup([Num(-5)]))
            == Num(0)
  {
    var ps := [Pred(IsNegative())];
    assert !PlainEq(ps[0], Num(5)) && !PlainEq(PTup(ps), Tup([Num(5)]));
    assert Match(ps[0], Num(5), []) == None;
    assert MatchSeq(ps, [Num(5)], []) == None;
    CaptureTupleValues(ps, [Num(-5)]);
  }

  /** `lambda a, b: ('+', b, a)`. */
  function SwapPair(): Transform
  {
    (xs: seq<Tree>) => if |xs| == 2 then Tup([Sym("+"), xs[1], xs[0]]) else Tup([])
  }

  /** `when('+', _, _).then(lambda a, b: ('+', b, a))` called directly on
      `('+', 1, 2)` gives `('+', 2, 1)`: the wildcards hand over the operands
      in order. */
  lemma SwapOperandsScenario()
    ensures Apply(WhenRule([L("+"), Wildcard, Wildcard], None, Some(SwapPair())), Tup([Sym("+"), Num(1), Num(2)]))
            == Tup([Sym("+"), Num(2), Num(1)])
  {
    SwapOperandsMatch();
    assert Values([(Anon(0), Num(1)), (Anon(1), Num(2))]) == [Num(1), Num(2)];
  }

  /** The two wildcards of `('+', _, _)` bind the operands under "_0" and "_1". */
  lemma SwapOperandsMatch()
    ensures Match(PTup([L("+"), Wildcard, Wildcard]), Tup([Sym("+"), Num(1), Num(2)]), [])
            == Some([(Anon(0), Num(1)), (Anon(1), Num(2))])
  {
    var ps, ts := [Wildcard, Wildcard], [Num(1), Num(2)];
    assert [L("+")] + ps == [L("+"), Wildcard, Wildcard];
    assert [Sym("+")] + ts == [Sym("+"), Num(1), Num(2)];
    CapturesInOrder(ps, ts, []);
    assert AnonEntries(0, ts) == [(Anon(0), Num(1)), (Anon(1), Num(2))];
    assert [] + AnonEntries(0, ts) == AnonEntries(0, ts);
    HeadThenRest(Str("+"), ps, ts, AnonEntries(0, ts));
  }

  /** `lambda a, b: a + b` on integer arguments. */
  function AddInts(): Transform
  {
    (xs: seq<Tree>) =>
      if |xs| == 2 && xs[0].Atom? && xs[0].value.Int? && xs[1].Atom? && xs[1].value.Int?
      then Num(xs[0].value.i + xs[1].value.i) else Tup([])
  }

  function AddLiterals(): WhenRule
  {
    WhenRule([L("+"), Pred(IsLiteral), Pred(IsLiteral)], None, Some(AddInts()))
  }

  /** `when('+', is_literal, is_literal)` binds both integer operands. */
  lemma AddLiteralsApplies(a: int, c: int)
    ensures Apply(AddLiterals(), Tup([Sym("+"), Num(a), Num(c)])) == Num(a + c)
  {
    var ps, ts := [Pred(IsLiteral), Pred(IsLiteral)], [Num(a), Num(c)];
    IsLiteralExactly(Num(a));
    IsLiteralExactly(Num(c));
    CapturesInOrder(ps, ts, []);
    assert [] + AnonEntries(0, ts) == AnonEntries(0, ts);
    AnonEntriesValues(0, ts);
    HeadThenRest(Str("+"), ps, ts, AnonEntries(0, ts));
    assert [L("+")] + ps == AddLiterals().pattern;
    assert [Sym("+")] + ts == [Sym("+"), Num(a), Num(c)];
  }

  /** `rewrite(('+', 2, 3), bottom_up(when('+', is_literal, is_literal).then(lambda a, b: a + b)))`
      gives 5. */
  lemma LiteralAdditionScenario()
    ensures Rewritten(Tup([Sym("+"), Num(2), Num(3)]), [BottomUpRule(AsRule(AddLiterals()))], 1) == Some(Num(5))
  {
    var rule := AsRule(AddLiterals());
    var expr := Tup([Sym("+"), Num(2), Num(3)]);
    AddLiteralsApplies(2, 3);
    AtomsAreFixed(AddLiterals(), Int(2));
    AtomsAreFixed(AddLiterals(), Int(3));
    AtomsAreFixed(AddLiterals(), Int(5));
    BottomUpFlat(rule, Sym("+"), Int(2), Int(3));
    BottomUpShape(rule, Num(5));
    RewrittenStep(expr, [BottomUpRule(rule)], 1, 0);
  }

  /** `lambda x: ('*', 3, x)`. */
  function ThriceOf(): Transform
  {
    (xs: seq<Tree>) => if |xs| > 0 then Tup([Sym("*"), Num(3), xs[0]]) else Tup([])
  }

  /** The inner pattern `('*', 2, '$x')` with x already bound to 'y' accepts
      `('*', 2, 'y')` and adds nothing. */
  lemma BoundVariableInSubtree()
    ensures Match(PTup([L("*"), Lit(Int(2)), L("$x")]), Tup([Sym("*"), Num(2), Sym("y")]), [(Named("$x"), Sym("y"))])
            == Some([(Named("$x"), Sym("y"))])
  {
    var b := [(Named("$x"), Sym("y"))];
    var ps, ts := [L("*"), Lit(Int(2)), L("$x")], [Sym("*"), Num(2), Sym("y")];
    assert !PlainEq(ps[2], ts[2]) && !PlainEq(PTup(ps), Tup(ts));
    LiteralMatch(Str("*"), Sym("*"), b);
    LiteralMatch(Int(2), Num(2), b);
    assert Get(b, Named("$x")) == Some(Sym("y"));
    assert Match(ps[2], ts[2], b) == Some(b);
    assert ps[1..] == [Lit(Int(2)), L("$x")] && ts[1..] == [Num(2), Sym("y")];
    assert ps[1..][1..] == [L("$x")] && ts[1..][1..] == [Sym("y")];
    assert MatchSeq([L("$x")], [Sym("y")], b) == Some(b);
    assert MatchSeq(ps[1..], ts[1..], b) == Some(b);
  }

  /** `when('+', '$x', ('*', 2, '$x'))`: x binds 'y' at the top and must be
      'y' again inside the subtree. */
  lemma VariableAcrossSubtreesMatch()
    ensures Match(PTup([L("+"), L("$x"), PTup([L("*"), Lit(Int(2)), L("$x")])]),
                  Tup([Sym("+"), Sym("y"), Tup([Sym("*"), Num(2), Sym("y")])]), [])
            == Some([(Named("$x"), Sym("y"))])
  {
    var b := [(Named("$x"), Sym("y"))];
    var ps, ts := [L("$x"), PTup([L("*"), Lit(Int(2)), L("$x")])], [Sym("y"), Tup([Sym("*"), Num(2), Sym("y")])];
    assert Match(ps[0], ts[0], []) == Some(b);
    BoundVariableInSubtree();
    assert ps[1..] == [ps[1]] && ts[1..] == [ts[1]];
    assert MatchSeq(ps[1..], ts[1..], b) == Some(b);
    assert MatchSeq(ps, ts, []) == Some(b);
    HeadThenRest(Str("+"), ps, ts, b);
    assert [L("+")] + ps == [L("+"), L("$x"), PTup([L("*"), Lit(Int(2)), L("$x")])];
    assert [Sym("+")] + ts == [Sym("+"), Sym("y"), Tup([Sym("*"), Num(2), Sym("y")])];
  }

  /** `rewrite(('+', 'y', ('*', 2, 'y')), rule)` gives `('*', 3, 'y')`. */
  lemma VariableAcrossSubtreesScenario()
    ensures
      var rule := WhenRule([L("+"), L("$x"), PTup([L("*"), Lit(Int(2)), L("$x")])], None, Some(ThriceOf()));
      Rewritten(Tup([Sym("+"), Sym("y"), Tup([Sym("*"), Num(2), Sym("y")])]), [AsRule(rule)], 1)
        == Some(Tup([Sym("*"), Num(3), Sym("y")]))
  {
    var rule := WhenRule([L("+"), L("$x"), PTup([L("*"), Lit(Int(2)), L("$x")])], None, Some(ThriceOf()));
    var expr := Tup([Sym("+"), Sym("y"), Tup([Sym("*"), Num(2), Sym("y")])]);
    VariableAcrossSubtreesMatch();
    assert Values([(Named("$x"), Sym("y"))]) == [Sym("y")];
    assert Apply(rule, expr) == Tup([Sym("*"), Num(3), Sym("y")]);
    HeadMismatch(rule, Str("+"), Tup([Sym("*"), Num(3), Sym("y")]));
    RewrittenStep(expr, [AsRule(rule)], 1, 0);
  }

  /** `lambda x: ('h', x)`. */
  function HeadH(): Transform
  {
    (xs: seq<Tree>) => if |xs| > 0 then Tup([Sym("h"), xs[0]]) else Tup([])
  }

  /** `rewrite(('f', ('g', 'y')), when('f', ('g', '$x')).then(lambda x: ('h', x)))`
      gives `('h', 'y')`: the variable is bound inside the nested tuple. */
  lemma NestedPatternScenario()
    ensures
      var rule := WhenRule([L("f"), PTup([L("g"), L("$x")])], None, Some(HeadH()));
      Rewritten(Tup([Sym("f"), Tup([Sym("g"), Sym("y")])]), [AsRule(rule)], 1) == Some(Tup([Sym("h"), Sym("y")]))
  {
    var rule := WhenRule([L("f"), PTup([L("g"), L("$x")])], None, Some(HeadH()));
    var expr := Tup([Sym("f"), Tup([Sym("g"), Sym("y")])]);
    var b := [(Named("$x"), Sym("y"))];
    var ps, ts := [PTup([L("g"), L("$x")])], [Tup([Sym("g"), Sym("y")])];
    HeadAndVariable(Str("g"), "$x", Sym("y"));
    assert MatchSeq(ps, ts, []) == Some(b);
    assert [L("g"), L("$x")][1] == L("$x") && [Sym("g"), Sym("y")][1] == Sym("y");
    assert !PlainEq(ps[0], ts[0]);
    HeadThenRest(Str("f"), ps, ts, b);
    assert [L("f")] + ps == rule.pattern && [Sym("f")] + ts == expr.elems;
    assert Apply(rule, expr) == Tup([Sym("h"), Sym("y")]);
    HeadMismatch(rule, Str("f"), Tup([Sym("h"), Sym("y")]));
    RewrittenStep(expr, [AsRule(rule)], 1, 0);
  }

  /** `rewrite(('ok',), when('nope').then(42))` is `('ok',)`: the head
      differs, so the rule never fires and the driver stops at once. */
  lemma NeverMatchingScenario()
    ensures
      var never := WhenRule([L("nope")], None, Some(TransformOf(Constant(Num(42)))));
      Rewritten(Tup([Sym("ok")]), [AsRule(never)], 0) == Some(Tup([Sym("ok")]))
  {
    var never := WhenRule([L("nope")], None, Some(TransformOf(Constant(Num(42)))));
    HeadMismatch(never, Str("nope"), Tup([Sym("ok")]));
    assert Fixed(Tup([Sym("ok")]), [AsRule(never)]);
  }
}

/**
 * Rules built with `when(...).where(...).then(...)`, their application to a
 * tree, and the construction helpers `commutative`, `is_type` and
 * `is_literal`.
 */
module Rules {
  import opened Wrappers
  import opened Trees
  import opened Patterns
  import opened Matcher

  /** A guard and a transform receive the bound trees as positional arguments. */
  type Guard = seq<Tree> -> bool
  type Transform = seq<Tree> -> Tree

  /** The argument of `then`: a callable, or any other value, which is then
      produced as a constant. */
  datatype Result = Compute(f: Transform) | Constant(value: Tree)

  /** What `then` stores: the callable itself, or a function that ignores its
      arguments and returns the constant. */
  function TransformOf(result: Result): Transform
  {
    match result
    case Compute(f) => f
    case Constant(c) => _ => c
  }

  /** The state of a `when` object: its tuple of pattern elements and the
      optional guard and transform. */
  datatype WhenRule = WhenRule(pattern: seq<Pattern>, guard: Option<Guard>, transform: Option<Transform>)

  /** What calling a `when` object does: match the pattern tuple from an
      empty dictionary, check the guard on the bound values, apply the
      transform; in every other case return the input. */
  function Apply(rule: WhenRule, t: Tree): Tree
  {
    match Match(PTup(rule.pattern), t, [])
    case None => t
    case Some(b) =>
      var args := Values(b);
      if rule.guard.None? || rule.guard.value(args) then
        match rule.transform
        case Some(f) => f(args)
        case None => t
      else t
  }

  /** A `when` object used as a plain tree-to-tree function. */
  function AsRule(rule: WhenRule): Rule
  {
    t => Apply(rule, t)
  }

  /** The fluent builder. `where` and `then` overwrite one field each and
      return the object itself. */
  class When {
    var pattern: seq<Pattern>
    var guard: Option<Guard>
    var transform: Option<Transform>

    constructor (pattern: seq<Pattern>)
      ensures this.pattern == pattern && guard.None? && transform.None?
    {
      this.pattern := pattern;
      guard := None;
      transform := None;
    }

    /** The current value of the three fields. */
    function Current(): WhenRule
      reads this
    {
      WhenRule(pattern, guard, transform)
    }

    method Where(condition: Guard) returns (self: When)
      modifies this
      ensures self == this
      ensures guard == Some(condition)
      ensures pattern == old(pattern) && transform == old(transform)
    {
      guard := Some(condition);
      self := this;
    }

    method Then(result: Result) returns (self: When)
      modifies this
      ensures self == this
      ensures transform == Some(TransformOf(result))
      ensures pattern == old(pattern) && guard == old(guard)
    {
      transform := Some(TransformOf(result));
      self := this;
    }

    /** `__call__`, running the imperative matcher. */
    method Call(tree: Tree) returns (r: Tree)
      ensures r == Apply(Current(), tree)
    {
      var bindings := MatchInto(PTup(pattern), tree, []);
      if bindings.Some? {
        var args := Values(bindings.value);
        if guard.None? || guard.value(args) {
          if transform.Some? {
            return transform.value(args);
          }
        }
      }
      return tree;
    }
  }

  // ---------------------------------------------------------------------
  // What a rule application can do

  /** A rule changes its input only when the pattern matched (so the input
      is a tuple of the pattern's length), the guard, if any, accepted the
      bound values, and a transform is present; the output is then the
      transform of the bound values. */
  lemma ApplyChanges(rule: WhenRule, t: Tree)
    requires Apply(rule, t) != t
    ensures t.Tup? && |t.elems| == |rule.pattern|
    ensures Match(PTup(rule.pattern), t, []).Some?
    ensures var args := Values(Match(PTup(rule.pattern), t, []).value);
      && (rule.guard.None? || rule.guard.value(args))
      && rule.transform.Some?
      && Apply(rule, t) == rule.transform.value(args)
  {
    MatchTupleShape(rule.pattern, t, []);
  }

  /** A rule without `then` is a structural probe: it never changes a tree. */
  lemma WithoutThenIsNoOp(rule: WhenRule, t: Tree)
    requires rule.transform.None?
    ensures Apply(rule, t) == t
  {
  }

  /** A constant `then` value is produced on every successful, accepted
      match, and nothing else is ever produced. */
  lemma ConstantResult(rule: WhenRule, c: Tree, t: Tree)
    requires rule.transform == Some(TransformOf(Constant(c)))
    ensures Apply(rule, t) == t || Apply(rule, t) == c
    ensures Match(PTup(rule.pattern), t, []).Some?
            && (rule.guard.None? || rule.guard.value(Values(Match(PTup(rule.pattern), t, []).value)))
            ==> Apply(rule, t) == c
  {
  }

  /** The empty pattern `when()` matches the empty tuple and nothing else. */
  lemma EmptyPatternMatchesOnlyEmptyTuple(t: Tree)
    ensures Match(PTup([]), t, []).Some? <==> t == Tup([])
  {
    if t.Tup? && |t.elems| == 0 {
      assert t.elems == [];
    }
  }

  /** A rule whose pattern elements all capture hands its transform the
      elements of the tuple in order. */
  lemma CapturingRuleArguments(ps: seq<Pattern>, f: Transform, ts: seq<Tree>)
    requires |ps| == |ts|
    requires forall i :: 0 <= i < |ps| ==> Captures(ps[i], ts[i])
    ensures Apply(WhenRule(ps, None, Some(f)), Tup(ts)) == f(ts)
  {
    CaptureTupleValues(ps, ts);
  }

  // ---------------------------------------------------------------------
  // Construction helpers

  /** `commutative(op, value, result)`: the two rules `(op, value, _)` and
      `(op, _, value)`, both with the same result and no guard. */
  function Commutative(op: Pattern, value: Pattern, result: Result): (rules: seq<WhenRule>)
    ensures |rules| == 2
  {
    [ WhenRule([op, value, Wildcard], None, Some(TransformOf(result))),
      WhenRule([op, Wildcard, value], None, Some(TransformOf(result))) ]
  }

  /** A scalar that the matcher treats as a literal (not "_", not "$..."). */
  predicate PlainValue(v: Value)
  {
    !IsWildcard(Lit(v)) && !IsVariable(Lit(v))
  }

  /** A literal scalar pattern matches its own atom, adding nothing, and
      fails on every other tree. */
  lemma LiteralMatch(v: Value, t: Tree, b: Bindings)
    requires PlainValue(v)
    ensures Match(Lit(v), t, b) == if t == Atom(v) then Some(b) else None
  {
  }

  /** A rule whose pattern starts with a literal head never changes a tuple
      with a different head. */
  lemma HeadMismatch(rule: WhenRule, v: Value, t: Tree)
    requires |rule.pattern| > 0 && rule.pattern[0] == Lit(v) && PlainValue(v)
    requires t.Tup? && |t.elems| > 0 && t.elems[0] != Atom(v)
    ensures Match(PTup(rule.pattern), t, []).None?
    ensures Apply(rule, t) == t
  {
    assert !PlainEq(rule.pattern[0], t.elems[0]);
    LiteralMatch(v, t.elems[0], []);
  }

  /** Since `when(*pattern)` always builds a tuple pattern, a rule never
      changes an atom. */
  lemma AtomsAreFixed(rule: WhenRule, v: Value)
    ensures Match(PTup(rule.pattern), Atom(v), []).None?
    ensures Apply(rule, Atom(v)) == Atom(v)
  {
  }

  /** For a literal operator and a literal special value, the first rule
      rewrites `(op, value, x)` to the result applied to the single bound
      value x. */
  lemma CommutativeLeft(op: Value, special: Value, result: Result, x: Tree)
    requires PlainValue(op) && PlainValue(special)
    ensures Apply(Commutative(Lit(op), Lit(special), result)[0], Tup([Atom(op), Atom(special), x]))
            == TransformOf(result)([x])
  {
    var b := [(Anon(0), x)];
    PutAnon([], x);
    assert Values(b) == [x];
    var ps := [Lit(op), Lit(special), Wildcard];
    var ts := [Atom(op), Atom(special), x];
    assert !PlainEq(PTup(ps), Tup(ts)) by { assert !PlainEq(ps[2], ts[2]); }
    LiteralMatch(op, Atom(op), []);
    LiteralMatch(special, Atom(special), []);
    assert ps[1..] == [Lit(special), Wildcard] && ts[1..] == [Atom(special), x];
    assert ps[1..][1..] == [Wildcard] && ts[1..][1..] == [x];
    assert MatchSeq([Wildcard], [x], []) == Some(b);
    assert MatchSeq(ps[1..], ts[1..], []) == Some(b);
    assert MatchSeq(ps, ts, []) == Some(b);
  }

  /** ... and the second rule rewrites `(op, x, value)` to the same. */
  lemma CommutativeRight(op: Value, special: Value, result: Result, x: Tree)
    requires PlainValue(op) && PlainValue(special)
    ensures Apply(Commutative(Lit(op), Lit(special), result)[1], Tup([Atom(op), x, Atom(special)]))
            == TransformOf(result)([x])
  {
    var b := [(Anon(0), x)];
    PutAnon([], x);
    assert Values(b) == [x];
    var ps := [Lit(op), Wildcard, Lit(special)];
    var ts := [Atom(op), x, Atom(special)];
    assert !PlainEq(PTup(ps), Tup(ts)) by { assert !PlainEq(ps[1], ts[1]); }
    LiteralMatch(op, Atom(op), []);
    LiteralMatch(special, Atom(special), b);
    assert ps[1..] == [Wildcard, Lit(special)] && ts[1..] == [x, Atom(special)];
    assert ps[1..][1..] == [Lit(special)] && ts[1..][1..] == [Atom(special)];
    assert MatchSeq([Lit(special)], [Atom(special)], b) == Some(b);
    assert MatchSeq(ps[1..], ts[1..], []) == Some(b);
    assert MatchSeq(ps, ts, []) == Some(b);
  }

  /** `is_type(*types)`: holds of a tree whose class is one of the given ones. */
  function IsType(kinds: set<Kind>): Predicate
  {
    t => KindOf(t) in kinds
  }

  /** `is_literal`: the self-evaluating scalars (int, float, bool, complex, None). */
  const IsLiteral: Predicate := IsType({IntKind, FloatKind, BoolKind, ComplexKind, NoneKind})

  /** `is_type(int, float)`, the number predicate of the tests, holds exactly
      of the int and float atoms: it accepts 3 and 2.5 and rejects 'x'. */
  lemma IsTypeIntFloat(t: Tree)
    ensures IsType({IntKind, FloatKind})(t) <==> t.Atom? && (t.value.Int? || t.value.Float?)
    ensures IsType({IntKind, FloatKind})(Atom(Int(3)))
    ensures IsType({IntKind, FloatKind})(Atom(Float(2.5)))
    ensures !IsType({IntKind, FloatKind})(Atom(Str("x")))
  {
  }

  /** Listing more classes widens `is_type` by exactly their members: the
      predicate for a union of class lists is the disjunction of the two,
      and the empty list accepts nothing. */
  lemma IsTypeUnion(k1: set<Kind>, k2: set<Kind>, t: Tree)
    ensures IsType(k1 + k2)(t) == (IsType(k1)(t) || IsType(k2)(t))
    ensures !IsType({})(t)
  {
  }

  /** The literals are exactly the atoms that are not strings: no tuple and
      no symbol is a literal. */
  lemma IsLiteralExactly(t: Tree)
    ensures IsLiteral(t) <==> t.Atom? && !t.value.Str?
  {
  }
}

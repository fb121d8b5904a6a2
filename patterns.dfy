/**
 * Patterns and the bindings the matcher builds.
 *
 * In the source any value may serve as a pattern; the matcher tells the
 * cases apart at run time. Here a pattern is a closed datatype whose cases
 * mirror those run-time classes: a predicate (a callable that is not a
 * type), the wildcard singleton `_`, a scalar (which, when it is the string
 * "_" or a string starting with '$', is classified as a wildcard or a
 * variable by the matcher), and a tuple of patterns.
 */
module Patterns {
  import opened Wrappers
  import opened Trees

  datatype Pattern =
    | Pred(test: Predicate)
    | Wildcard
    | Lit(value: Value)
    | PTup(elems: seq<Pattern>)

  /** The wildcard object `_`, or the string "_". */
  predicate IsWildcard(p: Pattern)
  {
    p.Wildcard? || (p.Lit? && p.value == Str("_"))
  }

  /** A string starting with '$' names a variable; the whole string is its key. */
  predicate IsVariable(p: Pattern)
  {
    p.Lit? && p.value.Str? && |p.value.s| > 0 && p.value.s[0] == '$'
  }

  /** Python's plain `pattern == tree`. A predicate or the wildcard object
      never equals a tree; scalars compare by value; tuples compare
      element-wise. No variable or wildcard string is interpreted here. */
  predicate PlainEq(p: Pattern, t: Tree)
    decreases p
  {
    match p
    case Pred(_) => false
    case Wildcard => false
    case Lit(v) => t == Atom(v)
    case PTup(ps) =>
      t.Tup? && |ps| == |t.elems| && forall i :: 0 <= i < |ps| ==> PlainEq(ps[i], t.elems[i])
  }

  /** A dictionary key: `Anon(n)` stands for the generated string "_n",
      `Named(s)` for a variable string `s` (which starts with '$'). */
  datatype Key = Anon(index: nat) | Named(name: string)

  /** An insertion-ordered dictionary from keys to trees. */
  type Bindings = seq<(Key, Tree)>

  /** Dictionary lookup (`k in bindings` / `bindings[k]`). */
  function Get(b: Bindings, k: Key): (r: Option<Tree>)
    ensures r.None? <==> forall i :: 0 <= i < |b| ==> b[i].0 != k
    ensures r.Some? ==> exists i :: 0 <= i < |b| && b[i] == (k, r.value)
  {
    if |b| == 0 then None
    else if b[0].0 == k then Some(b[0].1)
    else
      var r := Get(b[1..], k);
      assert r.Some? ==> exists i :: 0 <= i < |b[1..]| && b[1..][i] == (k, r.value);
      assert forall i :: 0 <= i < |b[1..]| ==> b[1..][i] == b[i + 1];
      r
  }

  /** Dictionary store (`bindings[k] = v`): replaces the value of an existing
      key in place, otherwise appends a new entry at the end. */
  function Put(b: Bindings, k: Key, v: Tree): (r: Bindings)
    ensures Get(r, k) == Some(v)
    ensures forall k' :: k' != k ==> Get(r, k') == Get(b, k')
    ensures Get(b, k).None? ==> r == b + [(k, v)]
  {
    if |b| == 0 then [(k, v)]
    else if b[0].0 == k then [(k, v)] + b[1..]
    else
      assert b == [b[0]] + b[1..];
      [b[0]] + Put(b[1..], k, v)
  }

  /** `bindings.values()`: the bound trees in insertion order. */
  function Values(b: Bindings): (vs: seq<Tree>)
    ensures |vs| == |b|
    ensures forall i :: 0 <= i < |b| ==> vs[i] == b[i].1
  {
    seq(|b|, i requires 0 <= i < |b| => b[i].1)
  }

  /** The shape the matcher keeps its dictionary in: the anonymous key at
      position i is "_i" (it was generated when the dictionary had i entries),
      and no variable key occurs twice. */
  ghost predicate WellKeyed(b: Bindings)
  {
    && (forall i :: 0 <= i < |b| && b[i].0.Anon? ==> b[i].0.index == i)
    && (forall i, j :: 0 <= i < j < |b| && b[i].0.Named? ==> b[i].0 != b[j].0)
  }

  /** Keys never collide in a well-keyed dictionary. */
  lemma WellKeyedDistinct(b: Bindings, i: nat, j: nat)
    requires WellKeyed(b) && i < j < |b|
    ensures b[i].0 != b[j].0
  {
  }

  /** The next generated key "_len" is never already present. */
  lemma AnonFresh(b: Bindings)
    requires WellKeyed(b)
    ensures Get(b, Anon(|b|)).None?
  {
  }

  /** Storing the fresh generated key appends exactly one entry and keeps the
      dictionary well keyed. */
  lemma PutAnon(b: Bindings, t: Tree)
    requires WellKeyed(b)
    ensures Put(b, Anon(|b|), t) == b + [(Anon(|b|), t)]
    ensures WellKeyed(b + [(Anon(|b|), t)])
  {
    AnonFresh(b);
    var b' := b + [(Anon(|b|), t)];
    forall i | 0 <= i < |b'| && b'[i].0.Anon?
      ensures b'[i].0.index == i
    {
      if i < |b| { assert b'[i] == b[i]; }
    }
    forall i, j | 0 <= i < j < |b'| && b'[i].0.Named?
      ensures b'[i].0 != b'[j].0
    {
      assert b'[i] == b[i];
      if j < |b| { assert b'[j] == b[j]; }
    }
  }

  /** Storing an unbound variable appends exactly one entry and keeps the
      dictionary well keyed. */
  lemma PutNamed(b: Bindings, name: string, t: Tree)
    requires WellKeyed(b) && Get(b, Named(name)).None?
    ensures Put(b, Named(name), t) == b + [(Named(name), t)]
    ensures WellKeyed(b + [(Named(name), t)])
  {
    var b' := b + [(Named(name), t)];
    forall i | 0 <= i < |b'| && b'[i].0.Anon?
      ensures b'[i].0.index == i
    {
      assert i < |b| && b'[i] == b[i];
    }
    forall i, j | 0 <= i < j < |b'| && b'[i].0.Named?
      ensures b'[i].0 != b'[j].0
    {
      assert b'[i] == b[i];
      if j < |b| { assert b'[j] == b[j]; }
    }
  }
}

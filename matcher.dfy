/**
 * The matcher of `when._match`: a pattern, a tree and the dictionary built so
 * far give either an extended dictionary or failure (`None`).
 */
module Matcher {
  import opened Wrappers
  import opened Trees
  import opened Patterns

  /** The matcher as a function. The tests are tried in a fixed order:
      predicate, wildcard, variable, plain equality, tuple descent. */
  function Match(p: Pattern, t: Tree, b: Bindings): Option<Bindings>
    decreases p
  {
    if p.Pred? then
      if p.test(t) then Some(Put(b, Anon(|b|), t)) else None
    else if IsWildcard(p) then
      Some(Put(b, Anon(|b|), t))
    else if IsVariable(p) then
      match Get(b, Named(p.value.s))
      case Some(bound) => if bound == t then Some(b) else None
      case None => Some(Put(b, Named(p.value.s), t))
    else if PlainEq(p, t) then
      Some(b)
    else if p.PTup? && t.Tup? then
      if |p.elems| != |t.elems| then None else MatchSeq(p.elems, t.elems, b)
    else
      None
  }

  /** Left-to-right descent through equally long tuples, threading one
      dictionary; the first failing position fails the whole. */
  function MatchSeq(ps: seq<Pattern>, ts: seq<Tree>, b: Bindings): Option<Bindings>
    requires |ps| == |ts|
    decreases ps
  {
    if |ps| == 0 then Some(b)
    else
      match Match(ps[0], ts[0], b)
      case None => None
      case Some(b1) => MatchSeq(ps[1..], ts[1..], b1)
  }

  /** The matcher as the source runs it: the dictionary is extended entry by
      entry while a loop walks the positions of a tuple pattern. */
  method MatchInto(p: Pattern, t: Tree, b: Bindings) returns (r: Option<Bindings>)
    ensures r == Match(p, t, b)
    decreases p
  {
    if p.Pred? {
      if p.test(t) {
        return Some(Put(b, Anon(|b|), t));
      }
      return None;
    }
    if IsWildcard(p) {
      return Some(Put(b, Anon(|b|), t));
    }
    if IsVariable(p) {
      var key := Named(p.value.s);
      var bound := Get(b, key);
      if bound.Some? {
        return if bound.value == t then Some(b) else None;
      }
      return Some(Put(b, key, t));
    }
    if PlainEq(p, t) {
      return Some(b);
    }
    if p.PTup? && t.Tup? {
      if |p.elems| != |t.elems| {
        return None;
      }
      var bindings := b;
      var i := 0;
      while i < |p.elems|
        invariant 0 <= i <= |p.elems|
        invariant MatchSeq(p.elems, t.elems, b) == MatchSeq(p.elems[i..], t.elems[i..], bindings)
      {
        assert p.elems[i..][1..] == p.elems[i + 1..];
        assert t.elems[i..][1..] == t.elems[i + 1..];
        var sub := MatchInto(p.elems[i], t.elems[i], bindings);
        if sub.None? {
          return None;
        }
        bindings := sub.value;
        i := i + 1;
      }
      return Some(bindings);
    }
    return None;
  }

  // ---------------------------------------------------------------------
  // Bindings: what a successful match adds

  /** The tests in precedence order, from a well-keyed dictionary: a
      predicate that holds, the wildcard and the first occurrence of a
      variable each append exactly one entry with a fresh key; a repeated
      variable succeeds, adding nothing, exactly when the tree equals its
      binding; plain equality succeeds with nothing added; a tuple pattern
      against an equally long tuple descends position by position; anything
      else fails. */
  lemma MatchPrecedence(p: Pattern, t: Tree, b: Bindings)
    requires WellKeyed(b)
    ensures p.Pred? ==>
      Match(p, t, b) == if p.test(t) then Some(b + [(Anon(|b|), t)]) else None
    ensures !p.Pred? && IsWildcard(p) ==>
      Match(p, t, b) == Some(b + [(Anon(|b|), t)])
    ensures IsVariable(p) && Get(b, Named(p.value.s)).None? ==>
      Match(p, t, b) == Some(b + [(Named(p.value.s), t)])
    ensures IsVariable(p) && Get(b, Named(p.value.s)).Some? ==>
      Match(p, t, b) == if Get(b, Named(p.value.s)).value == t then Some(b) else None
    ensures !p.Pred? && !IsWildcard(p) && !IsVariable(p) && PlainEq(p, t) ==>
      Match(p, t, b) == Some(b)
    ensures !p.Pred? && !IsWildcard(p) && !IsVariable(p) && !PlainEq(p, t)
            && p.PTup? && t.Tup? && |p.elems| == |t.elems| ==>
      Match(p, t, b) == MatchSeq(p.elems, t.elems, b)
    ensures !p.Pred? && !IsWildcard(p) && !IsVariable(p) && !PlainEq(p, t)
            && !(p.PTup? && t.Tup? && |p.elems| == |t.elems|) ==>
      Match(p, t, b).None?
  {
    if p.Pred? || IsWildcard(p) {
      PutAnon(b, t);
    } else if IsVariable(p) && Get(b, Named(p.value.s)).None? {
      PutNamed(b, p.value.s, t);
    }
  }

  /** A successful match only appends entries to a well-keyed dictionary and
      leaves it well keyed: earlier entries and their order are kept, and
      keys never collide. */
  lemma {:induction false} MatchExtends(p: Pattern, t: Tree, b: Bindings)
    requires WellKeyed(b) && Match(p, t, b).Some?
    ensures WellKeyed(Match(p, t, b).value)
    ensures b <= Match(p, t, b).value
    decreases p
  {
    MatchPrecedence(p, t, b);
    if !p.Pred? && !IsWildcard(p) && !IsVariable(p) && !PlainEq(p, t) {
      MatchSeqExtends(p.elems, t.elems, b);
    }
  }

  lemma {:induction false} MatchSeqExtends(ps: seq<Pattern>, ts: seq<Tree>, b: Bindings)
    requires |ps| == |ts| && WellKeyed(b) && MatchSeq(ps, ts, b).Some?
    ensures WellKeyed(MatchSeq(ps, ts, b).value)
    ensures b <= MatchSeq(ps, ts, b).value
    decreases ps
  {
    if |ps| > 0 {
      MatchExtends(ps[0], ts[0], b);
      MatchSeqExtends(ps[1..], ts[1..], Match(ps[0], ts[0], b).value);
    }
  }

  /** A variable, once bound, keeps its tree for the rest of the match. */
  lemma {:induction false} MatchKeepsNamed(p: Pattern, t: Tree, b: Bindings, n: string)
    requires Match(p, t, b).Some? && Get(b, Named(n)).Some?
    ensures Get(Match(p, t, b).value, Named(n)) == Get(b, Named(n))
    decreases p
  {
    if !p.Pred? && !IsWildcard(p) && !IsVariable(p) && !PlainEq(p, t) {
      MatchSeqKeepsNamed(p.elems, t.elems, b, n);
    }
  }

  lemma {:induction false} MatchSeqKeepsNamed(ps: seq<Pattern>, ts: seq<Tree>, b: Bindings, n: string)
    requires |ps| == |ts| && MatchSeq(ps, ts, b).Some? && Get(b, Named(n)).Some?
    ensures Get(MatchSeq(ps, ts, b).value, Named(n)) == Get(b, Named(n))
    decreases ps
  {
    if |ps| > 0 {
      MatchKeepsNamed(ps[0], ts[0], b, n);
      MatchSeqKeepsNamed(ps[1..], ts[1..], Match(ps[0], ts[0], b).value, n);
    }
  }

  // ---------------------------------------------------------------------
  // Tuple descent: shape, order, short-circuit

  /** A tuple pattern matches only a tuple of the same length. */
  lemma MatchTupleShape(ps: seq<Pattern>, t: Tree, b: Bindings)
    requires Match(PTup(ps), t, b).Some?
    ensures t.Tup? && |t.elems| == |ps|
  {
  }

  /** Descent is a left-to-right fold: matching a tuple is matching a prefix
      and then the rest from the dictionary the prefix produced. */
  lemma {:induction false} MatchSeqSplit(ps: seq<Pattern>, ts: seq<Tree>, b: Bindings, k: nat)
    requires |ps| == |ts| && k <= |ps|
    ensures MatchSeq(ps, ts, b) ==
      match MatchSeq(ps[..k], ts[..k], b)
      case None => None
      case Some(b1) => MatchSeq(ps[k..], ts[k..], b1)
    decreases k
  {
    if k == 0 {
      assert ps[0..] == ps && ts[0..] == ts;
    } else {
      assert ps[..k][1..] == ps[1..][..k - 1];
      assert ts[..k][1..] == ts[1..][..k - 1];
      assert ps[..k][0] == ps[0] && ts[..k][0] == ts[0];
      match Match(ps[0], ts[0], b)
      case None =>
      case Some(b1) =>
        MatchSeqSplit(ps[1..], ts[1..], b1, k - 1);
        assert ps[1..][k - 1..] == ps[k..];
        assert ts[1..][k - 1..] == ts[k..];
    }
  }

  /** The first failing position fails the whole tuple. */
  lemma MatchSeqFirstFailure(ps: seq<Pattern>, ts: seq<Tree>, b: Bindings, k: nat, b1: Bindings)
    requires |ps| == |ts| && k < |ps|
    requires MatchSeq(ps[..k], ts[..k], b) == Some(b1)
    requires Match(ps[k], ts[k], b1).None?
    ensures MatchSeq(ps, ts, b).None?
  {
    MatchSeqSplit(ps, ts, b, k);
    assert ps[k..][0] == ps[k] && ts[k..][0] == ts[k];
  }

  /** The entries `(_n, ts[0]), (_n+1, ts[1]), ...` */
  function AnonEntries(n: nat, ts: seq<Tree>): (r: Bindings)
    ensures |r| == |ts|
    decreases ts
  {
    if |ts| == 0 then [] else [(Anon(n), ts[0])] + AnonEntries(n + 1, ts[1..])
  }

  lemma {:induction false} AnonEntriesValues(n: nat, ts: seq<Tree>)
    ensures Values(AnonEntries(n, ts)) == ts
    decreases ts
  {
    if |ts| > 0 {
      AnonEntriesValues(n + 1, ts[1..]);
      assert Values(AnonEntries(n, ts)) == [ts[0]] + Values(AnonEntries(n + 1, ts[1..]));
    }
  }

  /** A position that always captures its tree: the wildcard object, or a
      predicate that holds of the tree there. */
  predicate Captures(p: Pattern, t: Tree)
  {
    p.Wildcard? || (p.Pred? && p.test(t))
  }

  /** A capture appends its tree under the next generated key. */
  lemma CaptureAppends(p: Pattern, t: Tree, b: Bindings)
    requires Captures(p, t) && WellKeyed(b)
    ensures Match(p, t, b) == Some(b + [(Anon(|b|), t)])
  {
    PutAnon(b, t);
  }

  /** Regrouping a dictionary extended by one entry and then by more.
      Stated on its own: inside the induction below the same step runs out
      of resource next to the unfolding of the generated entries. */
  lemma AppendOne(b: Bindings, e: (Key, Tree), rest: Bindings)
    ensures (b + [e]) + rest == b + ([e] + rest)
  {
  }

  /** Capturing positions record their trees in pattern order, under the
      generated keys "_n", "_n+1", ... */
  lemma {:induction false} CapturesInOrder(ps: seq<Pattern>, ts: seq<Tree>, b: Bindings)
    requires |ps| == |ts| && WellKeyed(b)
    requires forall i :: 0 <= i < |ps| ==> Captures(ps[i], ts[i])
    ensures MatchSeq(ps, ts, b) == Some(b + AnonEntries(|b|, ts))
    decreases ps
  {
    if |ps| > 0 {
      CaptureAppends(ps[0], ts[0], b);
      var b1 := b + [(Anon(|b|), ts[0])];
      PutAnon(b, ts[0]);
      assert forall i :: 0 <= i < |ps[1..]| ==> Captures(ps[1..][i], ts[1..][i]) by {
        assert forall i :: 0 <= i < |ps[1..]| ==> ps[1..][i] == ps[i + 1] && ts[1..][i] == ts[i + 1];
      }
      assert MatchSeq(ps, ts, b) == MatchSeq(ps[1..], ts[1..], b1);
      CapturesInOrder(ps[1..], ts[1..], b1);
      AppendOne(b, (Anon(|b|), ts[0]), AnonEntries(|b1|, ts[1..]));
    } else {
      assert b + [] == b;
    }
  }

  /** A tuple pattern made of captures gives the guard and the transform the
      tuple's elements, left to right. */
  lemma CaptureTupleValues(ps: seq<Pattern>, ts: seq<Tree>)
    requires |ps| == |ts|
    requires forall i :: 0 <= i < |ps| ==> Captures(ps[i], ts[i])
    ensures Match(PTup(ps), Tup(ts), []) == Some(AnonEntries(0, ts))
    ensures Values(AnonEntries(0, ts)) == ts
  {
    CapturesInOrder(ps, ts, []);
    AnonEntriesValues(0, ts);
    assert [] + AnonEntries(0, ts) == AnonEntries(0, ts);
    if |ps| > 0 {
      assert !PlainEq(ps[0], ts[0]);
      assert !PlainEq(PTup(ps), Tup(ts));
    }
  }

  /** A pattern with a repeated variable `(head, $x, $x)` matches
      `(head, a, c)` exactly when a and c are structurally equal. */
  lemma NonlinearVariable(head: Value, v: Pattern, a: Tree, c: Tree)
    requires IsVariable(v)
    requires !IsWildcard(Lit(head)) && !IsVariable(Lit(head))
    ensures Match(PTup([Lit(head), v, v]), Tup([Atom(head), a, c]), []).Some? <==> a == c
  {
    var ps := [Lit(head), v, v];
    var ts := [Atom(head), a, c];
    var name := v.value.s;
    if !PlainEq(PTup(ps), Tup(ts)) {
      assert Match(Lit(head), Atom(head), []) == Some([]);
      assert ps[1..] == [v, v] && ts[1..] == [a, c];
      assert MatchSeq(ps, ts, []) == MatchSeq([v, v], [a, c], []);
      PutNamed([], name, a);
      var b1 := [(Named(name), a)];
      assert Match(v, a, []) == Some(b1);
      assert [v, v][1..] == [v] && [a, c][1..] == [c];
      assert MatchSeq([v, v], [a, c], []) == MatchSeq([v], [c], b1);
      assert Get(b1, Named(name)) == Some(a);
      assert Match(v, c, b1) == if a == c then Some(b1) else None;
      assert MatchSeq([v], [c], b1) == if a == c then Some(b1) else None;
    } else {
      assert PlainEq(ps[1], ts[1]) && PlainEq(ps[2], ts[2]);
    }
  }

  // ---------------------------------------------------------------------
  // A declarative reading of matching

  /** The pattern describes the tree under an assignment of trees to
      variable names: predicates hold, wildcards accept anything, variables
      denote their assigned tree, and a pattern that is not one of these
      either equals the tree plainly or is an equally long tuple whose
      positions describe the tree's positions. No order, no dictionary. */
  ghost predicate Describes(p: Pattern, t: Tree, env: map<string, Tree>)
    decreases p
  {
    if p.Pred? then p.test(t)
    else if IsWildcard(p) then true
    else if IsVariable(p) then p.value.s in env && env[p.value.s] == t
    else
      || PlainEq(p, t)
      || (&& p.PTup? && t.Tup? && |p.elems| == |t.elems|
          && forall i :: 0 <= i < |p.elems| ==> Describes(p.elems[i], t.elems[i], env))
  }

  /** The assignment agrees with every variable the dictionary binds. */
  ghost predicate Agrees(b: Bindings, env: map<string, Tree>)
  {
    forall n :: Get(b, Named(n)).Some? ==> n in env && env[n] == Get(b, Named(n)).value
  }

  /** The assignment a dictionary stands for. */
  function EnvOf(b: Bindings): (env: map<string, Tree>)
    ensures Agrees(b, env)
  {
    if |b| == 0 then map[]
    else
      var rest := EnvOf(b[1..]);
      if b[0].0.Named? then rest[b[0].0.name := b[0].1] else rest
  }

  /** Soundness: a successful match is described by any assignment that
      agrees with the dictionary it produced. */
  lemma {:induction false} MatchSound(p: Pattern, t: Tree, b: Bindings, env: map<string, Tree>)
    requires Match(p, t, b).Some? && Agrees(Match(p, t, b).value, env)
    ensures Describes(p, t, env)
    decreases p
  {
    if !p.Pred? && !IsWildcard(p) && IsVariable(p) {
      assert Get(Match(p, t, b).value, Named(p.value.s)) == Some(t);
    } else if !p.Pred? && !IsWildcard(p) && !IsVariable(p) && !PlainEq(p, t) {
      MatchSeqSound(p.elems, t.elems, b, env);
    }
  }

  lemma {:induction false} MatchSeqSound(ps: seq<Pattern>, ts: seq<Tree>, b: Bindings, env: map<string, Tree>)
    requires |ps| == |ts| && MatchSeq(ps, ts, b).Some? && Agrees(MatchSeq(ps, ts, b).value, env)
    ensures forall i :: 0 <= i < |ps| ==> Describes(ps[i], ts[i], env)
    decreases ps
  {
    if |ps| > 0 {
      var b1 := Match(ps[0], ts[0], b).value;
      forall n | Get(b1, Named(n)).Some?
        ensures n in env && env[n] == Get(b1, Named(n)).value
      {
        MatchSeqKeepsNamed(ps[1..], ts[1..], b1, n);
      }
      MatchSound(ps[0], ts[0], b, env);
      MatchSeqSound(ps[1..], ts[1..], b1, env);
      forall i | 0 <= i < |ps|
        ensures Describes(ps[i], ts[i], env)
      {
        if i > 0 {
          assert ps[i] == ps[1..][i - 1] && ts[i] == ts[1..][i - 1];
        }
      }
    }
  }

  /** Completeness: a description by an assignment that agrees with the
      dictionary so far makes the match succeed, agreeing still. */
  lemma {:induction false} MatchComplete(p: Pattern, t: Tree, b: Bindings, env: map<string, Tree>)
    requires Describes(p, t, env) && Agrees(b, env)
    ensures Match(p, t, b).Some? && Agrees(Match(p, t, b).value, env)
    decreases p
  {
    if p.Pred? || IsWildcard(p) {
    } else if IsVariable(p) {
    } else if !PlainEq(p, t) {
      MatchSeqComplete(p.elems, t.elems, b, env);
    }
  }

  lemma {:induction false} MatchSeqComplete(ps: seq<Pattern>, ts: seq<Tree>, b: Bindings, env: map<string, Tree>)
    requires |ps| == |ts| && Agrees(b, env)
    requires forall i :: 0 <= i < |ps| ==> Describes(ps[i], ts[i], env)
    ensures MatchSeq(ps, ts, b).Some? && Agrees(MatchSeq(ps, ts, b).value, env)
    decreases ps
  {
    if |ps| > 0 {
      MatchComplete(ps[0], ts[0], b, env);
      var b1 := Match(ps[0], ts[0], b).value;
      assert forall i :: 0 <= i < |ps[1..]| ==> ps[1..][i] == ps[i + 1] && ts[1..][i] == ts[i + 1];
      MatchSeqComplete(ps[1..], ts[1..], b1, env);
    }
  }

  /** A match from the empty dictionary succeeds exactly when some
      assignment of trees to variables makes the pattern describe the tree;
      the order of positions affects the dictionary, not success. */
  lemma MatchIffDescribed(p: Pattern, t: Tree)
    ensures Match(p, t, []).Some? <==> exists env :: Describes(p, t, env)
  {
    if Match(p, t, []).Some? {
      var env := EnvOf(Match(p, t, []).value);
      MatchSound(p, t, [], env);
      assert Describes(p, t, env);
    } else if exists env :: Describes(p, t, env) {
      var env :| Describes(p, t, env);
      MatchComplete(p, t, [], env);
    }
  }
}

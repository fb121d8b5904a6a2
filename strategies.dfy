/**
 * The fixed-point driver `rewrite` and the combinators `bottom_up`, `first`
 * and `all`, over rules seen as plain tree-to-tree functions.
 */
module Strategies {
  import opened Wrappers
  import opened Trees

  // ---------------------------------------------------------------------
  // bottom_up

  /** `bottom_up(rule)(t)`: rewrite the children first, then apply the rule
      to the rebuilt node. */
  function BottomUp(rule: Rule, t: Tree): Tree
    decreases t, 1
  {
    rule(Rebuilt(rule, t))
  }

  /** The node the rule sees: a non-empty tuple keeps its head untouched and
      has every other element rewritten bottom-up; atoms and `()` are passed
      as they are. */
  function Rebuilt(rule: Rule, t: Tree): Tree
    decreases t, 0
  {
    if t.Tup? && |t.elems| > 0 then
      Tup([t.elems[0]] + seq(|t.elems| - 1, i requires 0 <= i < |t.elems| - 1 => BottomUp(rule, t.elems[i + 1])))
    else
      t
  }

  /** `bottom_up(rule)` as a rule. */
  function BottomUpRule(rule: Rule): Rule
  {
    t => BottomUp(rule, t)
  }

  /** Children first, head kept, arity kept: the rule is applied last, to a
      node of the same length and head whose other elements are the
      bottom-up images of the original ones; atoms and `()` go straight to
      the rule. */
  lemma BottomUpShape(rule: Rule, t: Tree)
    ensures BottomUp(rule, t) == rule(Rebuilt(rule, t))
    ensures !(t.Tup? && |t.elems| > 0) ==> BottomUp(rule, t) == rule(t)
    ensures t.Tup? && |t.elems| > 0 ==>
      var n := Rebuilt(rule, t);
      && n.Tup? && |n.elems| == |t.elems| && n.elems[0] == t.elems[0]
      && forall i :: 1 <= i < |t.elems| ==> n.elems[i] == BottomUp(rule, t.elems[i])
  {
  }

  /** The rule leaves the tree and every subtree that bottom_up visits
      unchanged (heads of tuples are not visited). */
  ghost predicate FixedEverywhere(rule: Rule, t: Tree)
    decreases t
  {
    && rule(t) == t
    && (t.Tup? && |t.elems| > 0 ==>
          forall i :: 1 <= i < |t.elems| ==> FixedEverywhere(rule, t.elems[i]))
  }

  /** If the rule changes no visited node, bottom_up changes nothing. */
  lemma {:induction false} BottomUpFixedEverywhere(rule: Rule, t: Tree)
    requires FixedEverywhere(rule, t)
    ensures BottomUp(rule, t) == t
    decreases t
  {
    if t.Tup? && |t.elems| > 0 {
      var n := Rebuilt(rule, t);
      forall i | 1 <= i < |t.elems|
        ensures n.elems[i] == t.elems[i]
      {
        BottomUpFixedEverywhere(rule, t.elems[i]);
      }
      assert n.elems == t.elems;
    }
  }

  // ---------------------------------------------------------------------
  // The scan shared by `first` and `rewrite`

  /** No rule changes t. */
  predicate Fixed(t: Tree, rules: seq<Rule>)
  {
    forall i :: 0 <= i < |rules| ==> rules[i](t) == t
  }

  /** The index of the first rule from k on that changes t, if any. */
  function ScanFrom(rules: seq<Rule>, t: Tree, k: nat): (r: Option<nat>)
    requires k <= |rules|
    ensures r.None? <==> forall j :: k <= j < |rules| ==> rules[j](t) == t
    ensures r.Some? ==>
      && k <= r.value < |rules| && rules[r.value](t) != t
      && forall j :: k <= j < r.value ==> rules[j](t) == t
    decreases |rules| - k
  {
    if k == |rules| then None
    else if rules[k](t) != t then Some(k)
    else ScanFrom(rules, t, k + 1)
  }

  /** The index of the first rule that changes t, or None at a fixed point. */
  function Scan(rules: seq<Rule>, t: Tree): (r: Option<nat>)
    ensures r.None? <==> Fixed(t, rules)
    ensures r.Some? ==>
      && r.value < |rules| && rules[r.value](t) != t
      && forall j :: 0 <= j < r.value ==> rules[j](t) == t
  {
    ScanFrom(rules, t, 0)
  }

  /** The first changing rule is unique: any index whose rule changes t and
      whose predecessors all leave t alone is the one the scan finds. */
  lemma ScanFindsFirst(rules: seq<Rule>, t: Tree, i: nat)
    requires i < |rules| && rules[i](t) != t
    requires forall j :: 0 <= j < i ==> rules[j](t) == t
    ensures Scan(rules, t) == Some(i)
  {
  }

  // ---------------------------------------------------------------------
  // first

  /** `first(*rules)(t)`: the result of the first rule that changes t;
      t itself when none does. */
  function FirstOf(rules: seq<Rule>, t: Tree): (r: Tree)
    ensures r == t <==> Fixed(t, rules)
    ensures r != t ==>
      exists i :: 0 <= i < |rules| && r == rules[i](t) && forall j :: 0 <= j < i ==> rules[j](t) == t
  {
    match Scan(rules, t)
    case None => t
    case Some(i) => rules[i](t)
  }

  /** `first(*rules)` as a rule. */
  function FirstRule(rules: seq<Rule>): Rule
  {
    t => FirstOf(rules, t)
  }

  /** The loop of `first`, returning early on the first change. */
  method First(rules: seq<Rule>, tree: Tree) returns (r: Tree)
    ensures r == FirstOf(rules, tree)
  {
    for i := 0 to |rules|
      invariant forall j :: 0 <= j < i ==> rules[j](tree) == tree
    {
      var result := rules[i](tree);
      if result != tree {
        ScanFindsFirst(rules, tree, i);
        return result;
      }
    }
    return tree;
  }

  // ---------------------------------------------------------------------
  // all

  /** `all(*rules)(t)`: t threaded through every rule once, in order. */
  function AllOf(rules: seq<Rule>, t: Tree): Tree
    decreases |rules|
  {
    if |rules| == 0 then t else rules[|rules| - 1](AllOf(rules[..|rules| - 1], t))
  }

  /** `all(*rules)` as a rule. */
  function AllRule(rules: seq<Rule>): Rule
  {
    t => AllOf(rules, t)
  }

  /** The loop of `all`, reassigning the tree once per rule. */
  method All(rules: seq<Rule>, tree: Tree) returns (r: Tree)
    ensures r == AllOf(rules, tree)
  {
    r := tree;
    for i := 0 to |rules|
      invariant r == AllOf(rules[..i], tree)
    {
      assert rules[..i + 1][..i] == rules[..i];
      r := rules[i](r);
    }
    assert rules[..|rules|] == rules;
  }

  /** A pipeline is sequential composition: running `a + b` is running `a`
      and then `b` on its output. With no rules it is the identity, with one
      rule it is that rule. */
  lemma {:induction false} AllOfAppend(a: seq<Rule>, b: seq<Rule>, t: Tree)
    ensures AllOf(a + b, t) == AllOf(b, AllOf(a, t))
    decreases |b|
  {
    if |b| == 0 {
      assert a + b == a;
    } else {
      var b' := b[..|b| - 1];
      assert (a + b)[..|a + b| - 1] == a + b';
      AllOfAppend(a, b', t);
    }
  }

  lemma AllOfBase(r: Rule, t: Tree)
    ensures AllOf([], t) == t
    ensures AllOf([r], t) == r(t)
  {
    assert [r][..0] == [];
  }

  // ---------------------------------------------------------------------
  // rewrite

  /** `rewrite(t, *rules)` with a bound on the number of changes: scan the
      rules in order, apply the first that changes the tree and restart the
      scan from the first rule; stop at a tree no rule changes. `None` when
      more than `fuel` changes would be needed. */
  function Rewritten(t: Tree, rules: seq<Rule>, fuel: nat): (r: Option<Tree>)
    ensures r.Some? ==> Fixed(r.value, rules)
    ensures Fixed(t, rules) ==> r == Some(t)
    decreases fuel
  {
    match Scan(rules, t)
    case None => Some(t)
    case Some(i) => if fuel == 0 then None else Rewritten(rules[i](t), rules, fuel - 1)
  }

  /** The driver loop: an inner scan over the rules that stops at the first
      change, inside an outer loop that restarts the scan from rule 0. */
  method Rewrite(tree: Tree, rules: seq<Rule>, fuel: nat) returns (r: Option<Tree>)
    ensures r == Rewritten(tree, rules, fuel)
  {
    ghost var goal := Rewritten(tree, rules, fuel);
    var t := tree;
    var budget := fuel;
    while true
      invariant goal == Rewritten(t, rules, budget)
      decreases budget
    {
      var i := FindChange(rules, t);
      if i == |rules| {
        return Some(t);
      }
      RewrittenStepAt(t, rules, budget, i);
      if budget == 0 {
        return None;
      }
      t, budget := rules[i](t), budget - 1;
    }
  }

  /** The inner `for` loop of the driver: the index of the first rule that
      changes t, or the number of rules when none does. */
  method FindChange(rules: seq<Rule>, t: Tree) returns (i: nat)
    ensures i <= |rules|
    ensures i == |rules| <==> Scan(rules, t).None?
    ensures i < |rules| ==> Scan(rules, t) == Some(i)
  {
    i := 0;
    while i < |rules| && rules[i](t) == t
      invariant 0 <= i <= |rules|
      invariant forall j :: 0 <= j < i ==> rules[j](t) == t
    {
      i := i + 1;
    }
    if i < |rules| {
      ScanFindsFirst(rules, t, i);
    }
  }

  /** One iteration of the driver, as an equation about Rewritten. */
  lemma RewrittenStep(t: Tree, rules: seq<Rule>, n: nat, i: nat)
    requires i < |rules| && rules[i](t) != t
    requires forall j :: 0 <= j < i ==> rules[j](t) == t
    ensures n == 0 ==> Rewritten(t, rules, n).None?
    ensures n > 0 ==> Rewritten(t, rules, n) == Rewritten(rules[i](t), rules, n - 1)
  {
    ScanFindsFirst(rules, t, i);
  }

  /** The same step, from the scan's answer. */
  lemma RewrittenStepAt(t: Tree, rules: seq<Rule>, n: nat, i: nat)
    requires Scan(rules, t) == Some(i)
    ensures n == 0 ==> Rewritten(t, rules, n).None?
    ensures n > 0 ==> Rewritten(t, rules, n) == Rewritten(rules[i](t), rules, n - 1)
  {
  }

  /** More fuel never changes an answer: the bound only decides whether the
      driver gets to the fixed point, not which one it reaches. */
  lemma {:induction false} RewrittenFuelMonotone(t: Tree, rules: seq<Rule>, n: nat, m: nat)
    requires n <= m && Rewritten(t, rules, n).Some?
    ensures Rewritten(t, rules, m) == Rewritten(t, rules, n)
    decreases n
  {
    match Scan(rules, t)
    case None =>
    case Some(i) =>
      RewrittenFuelMonotone(rules[i](t), rules, n - 1, m - 1);
  }

  /** Rewriting a result again returns it unchanged, whatever the fuel. */
  lemma RewrittenIdempotent(t: Tree, rules: seq<Rule>, n: nat, k: nat)
    requires Rewritten(t, rules, n).Some?
    ensures Rewritten(Rewritten(t, rules, n).value, rules, k) == Rewritten(t, rules, n)
  {
  }

  /** Restart on change: when rule i is the first whose output differs, the
      driver continues from that output with a fresh scan from rule 0, and
      no earlier rule changed the tree. */
  lemma RewrittenRestarts(t: Tree, rules: seq<Rule>, n: nat, i: nat)
    requires i < |rules| && rules[i](t) != t
    requires forall j :: 0 <= j < i ==> rules[j](t) == t
    ensures Rewritten(t, rules, n + 1) == Rewritten(rules[i](t), rules, n)
    ensures Rewritten(t, rules, 0).None?
  {
    ScanFindsFirst(rules, t, i);
  }
}

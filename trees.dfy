/**
 * The value domain of the rewriter: a tree is an atom or a tuple, and
 * element 0 of a non-empty tuple is its head (an S-expression).
 */
module Trees {

  /** The Python scalar types a tree atom can have (`str`, `int`, `float`,
      `bool`, `complex`, `None`). Floats and the parts of a complex number are
      modelled as mathematical reals. */
  datatype Value =
    | Str(s: string)
    | Int(i: int)
    | Float(f: real)
    | Bool(b: bool)
    | Complex(re: real, im: real)
    | NoneValue

  /** A tree: an atom, or an immutable tuple of trees. Structural equality is
      Dafny's `==` on this datatype. */
  datatype Tree = Atom(value: Value) | Tup(elems: seq<Tree>)

  /** A rule maps a tree to a tree; returning the input means "no change". */
  type Rule = Tree -> Tree

  /** A predicate on a single tree, usable as a pattern. */
  type Predicate = Tree -> bool

  /** The Python class of a tree, as `isinstance` sees it (without the
      `bool`-is-an-`int` subclassing). */
  datatype Kind = StrKind | IntKind | FloatKind | BoolKind | ComplexKind | NoneKind | TupleKind

  function KindOf(t: Tree): Kind
  {
    match t
    case Tup(_) => TupleKind
    case Atom(v) =>
      match v
      case Str(_) => StrKind
      case Int(_) => IntKind
      case Float(_) => FloatKind
      case Bool(_) => BoolKind
      case Complex(_, _) => ComplexKind
      case NoneValue => NoneKind
  }

  /** Nesting depth: 0 for an atom, one more than the deepest element for a tuple. */
  function Height(t: Tree): nat
  {
    match t
    case Atom(_) => 0
    case Tup(es) => 1 + MaxHeight(es)
  }

  function MaxHeight(es: seq<Tree>): nat
  {
    if |es| == 0 then 0
    else
      var h := Height(es[|es| - 1]);
      var rest := MaxHeight(es[..|es| - 1]);
      if h < rest then rest else h
  }

  lemma {:induction false} MaxHeightBounds(es: seq<Tree>, i: nat)
    requires i < |es|
    ensures Height(es[i]) <= MaxHeight(es)
  {
    if i < |es| - 1 {
      MaxHeightBounds(es[..|es| - 1], i);
    }
  }

  /** Every element of a tuple is strictly shallower than the tuple. */
  lemma ElementHeight(t: Tree, i: nat)
    requires t.Tup? && i < |t.elems|
    ensures Height(t.elems[i]) < Height(t)
  {
    MaxHeightBounds(t.elems, i);
  }
}

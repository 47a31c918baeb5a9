/**
 * Expression trees whose nodes may carry a chain of alternatives. A null pointer is `Nil`.
 */
module ExpressionTrees {

  /** A Qt string distinguishes the null string from the empty one. */
  datatype Text = NullText | Text(chars: seq<nat>)

  datatype Transformation = Transformation(kind: int, arrayIndex: int, member: Text)

  datatype Value = Value(size: int, flags: int, raw: int)

  datatype Payload =
    | Void
    | UndefinedValue
    | RuntimeDependent
    | LiteralConstant(value: Value)
    | Enumerator(value: Value, valueSet: bool, symbol: int)
    | Variable(typeId: int, isGlobal: bool, transformations: seq<Transformation>)

  datatype Tree =
    | Nil
    | Leaf(payload: Payload, alt: Tree)
    | Binary(op: nat, left: Tree, right: Tree, alt: Tree)
    | Unary(op: nat, child: Tree, alt: Tree)

  function Size(e: Tree): nat {
    match e
    case Nil => 0
    case Leaf(_, alt) => 1 + Size(alt)
    case Binary(_, l, r, alt) => 1 + Size(l) + Size(r) + Size(alt)
    case Unary(_, c, alt) => 1 + Size(c) + Size(alt)
  }

  /** The node without its alternatives; a copy of the node alone, sharing its children. */
  function Alone(e: Tree): Tree
    requires !e.Nil?
  {
    match e
    case Leaf(p, _) => Leaf(p, Nil)
    case Binary(op, l, r, _) => Binary(op, l, r, Nil)
    case Unary(op, c, _) => Unary(op, c, Nil)
  }

  /** All operands are set, in alternatives as well. */
  predicate Complete(e: Tree) {
    match e
    case Nil => true
    case Leaf(_, alt) => Complete(alt)
    case Binary(_, l, r, alt) => !l.Nil? && !r.Nil? && Complete(l) && Complete(r) && Complete(alt)
    case Unary(_, c, alt) => !c.Nil? && Complete(c) && Complete(alt)
  }

  predicate AlternativeFree(e: Tree) {
    match e
    case Nil => true
    case Leaf(_, alt) => alt.Nil?
    case Binary(_, l, r, alt) => alt.Nil? && AlternativeFree(l) && AlternativeFree(r)
    case Unary(_, c, alt) => alt.Nil? && AlternativeFree(c)
  }
}

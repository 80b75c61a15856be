// Disjunction node of CPAchecker's expression trees (util/expressions/Or.java):
// a smart constructor `Of` and a private constructor that refuses fewer
// than two operands, order-preserving iteration, and list equality.
module ExpressionTrees {
  import opened Wrappers

  /** An expression tree: a leaf holding source code, or a disjunction.
   *  Other implementations of the interface are not part of this model. */
  datatype ExpressionTree = Leaf(code: string) | Or(operands: seq<ExpressionTree>)

  datatype Error = IllegalArgument(message: string)

  /** Every `Or` node, at any depth, has at least two operands. */
  predicate WellFormed(t: ExpressionTree) {
    match t
    case Leaf(_) => true
    case Or(ops) => |ops| >= 2 && forall i :: 0 <= i < |ops| ==> WellFormed(ops[i])
  }

  /** The private constructor `Or(Collection)`. */
  function NewOr(ops: seq<ExpressionTree>): (r: Result<ExpressionTree, Error>)
    ensures r.Ok? <==> |ops| >= 2
    ensures r.Ok? ==> r.value.Or? && Iterate(r.value) == ops
  {
    if |ops| < 2 then Err(IllegalArgument("Disjunction must have at least two operands."))
    else Ok(Or(ops))
  }

  /** `Or.of`. */
  function Of(ops: seq<ExpressionTree>): (r: Result<ExpressionTree, Error>)
    ensures r.Err? <==> ops == []
    ensures |ops| == 1 ==> r == Ok(ops[0])
    ensures |ops| >= 2 ==> r.Ok? && r.value.Or? && Iterate(r.value) == ops
  {
    if |ops| == 0 then Err(IllegalArgument("You must provide at least one operand."))
    else if |ops| == 1 then Ok(ops[0])
    else NewOr(ops)
  }

  /** `iterator()`: the operands in the order they were given. */
  function Iterate(t: ExpressionTree): (r: seq<ExpressionTree>)
    requires t.Or?
    ensures Or(r) == t
    ensures WellFormed(t) ==> |r| >= 2 && forall i :: 0 <= i < |r| ==> WellFormed(r[i])
  {
    t.operands
  }

  /** `Or.equals`: equal to another disjunction iff the operand lists are equal. */
  predicate OrEquals(a: ExpressionTree, b: ExpressionTree): (r: bool)
    requires a.Or?
    ensures r <==> a == b
  {
    b.Or? && a.operands == b.operands
  }

  /** Java `int` arithmetic: reduce to the 32-bit two's-complement range. */
  function Wrap32(x: int): (r: int)
    ensures -0x8000_0000 <= r < 0x8000_0000
    ensures (r - x) % 0x1_0000_0000 == 0
  {
    (x + 0x8000_0000) % 0x1_0000_0000 - 0x8000_0000
  }

  /** `List.hashCode`: start at 1, then `31 * h + hash(e)` per element. */
  function ListHash(hashes: seq<int>): (r: int)
    ensures hashes == [] ==> r == 1
    ensures -0x8000_0000 <= r < 0x8000_0000
  {
    if hashes == [] then 1 else Wrap32(31 * ListHash(hashes[..|hashes| - 1]) + hashes[|hashes| - 1])
  }

  /** Hash of a tree; the hash of a leaf is given by `leafHash`.  The hash
   *  of an Or node is a Java int, and an Or node over no operands would
   *  hash like the empty list. */
  function HashCode(t: ExpressionTree, leafHash: string -> int): (r: int)
    ensures t.Or? ==> -0x8000_0000 <= r < 0x8000_0000
    ensures t == Or([]) ==> r == 1
  {
    match t
    case Leaf(c) => leafHash(c)
    case Or(ops) => ListHash(seq(|ops|, i requires 0 <= i < |ops| => HashCode(ops[i], leafHash)))
  }

  /** Every result of `Of` on well-formed operands is well-formed. */
  lemma OfWellFormed(ops: seq<ExpressionTree>)
    requires forall i :: 0 <= i < |ops| ==> WellFormed(ops[i])
    ensures Of(ops).Ok? ==> WellFormed(Of(ops).value)
  {
  }

  /** Swapping two distinct operands gives a different disjunction. */
  lemma OrEqualsOrderSensitive(x: ExpressionTree, y: ExpressionTree)
    requires x != y
    ensures !OrEquals(Or([x, y]), Or([y, x]))
  {
    assert Or([x, y]).operands[0] != Or([y, x]).operands[0];
  }
}

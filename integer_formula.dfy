// The translation of the constraints CPAchecker's constraints analysis
// collects into solver formulas over integers and booleans
// (IntegerFormulaCreator).  Expressions, values and constraints are the
// analysis' own; formulas form a small syntax tree, one constructor per
// formula-manager operation the translation calls.
module IntegerFormulas {
  import opened Wrappers

  // ---------------------------------------------------------------------
  // Constraint expressions
  // ---------------------------------------------------------------------

  /** The basic Java types; `JOtherBasic` stands for those the translation does not list. */
  datatype JavaBasicType = JBoolean | JByte | JChar | JShort | JInt | JLong | JFloat | JDouble | JUnspecified | JOtherBasic

  /** The type of a symbolic identifier: a Java simple type, a C type, or any other type. */
  datatype IdentifierType = JavaSimpleType(basic: JavaBasicType) | CTypeAny | OtherIdentifierType

  /**
   * A value held by a constant expression.  For a numeric value,
   * `longValue` is its value as a Java long and `integral` stands for the
   * floating-point test that its double value has no fraction and equals
   * the long value.
   */
  datatype Value =
    | NumericValue(longValue: int, integral: bool)
    | BooleanValue(b: bool)
    | SymbolicIdentifier(id: nat, idType: IdentifierType)
    | SymbolicExpression(expression: Expr)
    | OtherValue

  datatype Expr =
    | Addition(op1: Expr, op2: Expr)
    | BinaryAnd(op1: Expr, op2: Expr)
    | BinaryNot(operand: Expr)
    | BinaryOr(op1: Expr, op2: Expr)
    | BinaryXor(op1: Expr, op2: Expr)
    | ConstantExpr(value: Value)
    | Division(op1: Expr, op2: Expr)
    | EqualsExpr(op1: Expr, op2: Expr)
    | LogicalOr(op1: Expr, op2: Expr)
    | LessThan(op1: Expr, op2: Expr)
    | LogicalAnd(op1: Expr, op2: Expr)
    | LogicalNot(operand: Expr)
    | LessThanOrEqual(op1: Expr, op2: Expr)
    | Modulo(op1: Expr, op2: Expr)
    | Multiplication(op1: Expr, op2: Expr)
    | ShiftLeft(op1: Expr, op2: Expr)
    | ShiftRight(op1: Expr, op2: Expr)

  /** A constraint over two operands; a non-positive constraint is the negation of the relation. */
  datatype Constraint =
    | LessConstraint(left: Expr, right: Expr, positive: bool)
    | LessOrEqualConstraint(left: Expr, right: Expr, positive: bool)
    | EqualConstraint(left: Expr, right: Expr, positive: bool)

  // ---------------------------------------------------------------------
  // Formulas
  // ---------------------------------------------------------------------

  datatype FormulaType = IntegerType | BooleanType

  datatype Formula =
    | IntVariable(name: string)
    | BoolVariable(name: string)
    | MakeNumber(n: int)
    | MakeBoolean(b: bool)
    | NumAdd(l: Formula, r: Formula)
    | NumDivide(l: Formula, r: Formula)
    | NumModulo(l: Formula, r: Formula)
    | NumMultiply(l: Formula, r: Formula)
    | NumEqual(l: Formula, r: Formula)
    | NumLessThan(l: Formula, r: Formula)
    | MakeLessOrEqual(l: Formula, r: Formula, signed: bool)
    | BoolAnd(l: Formula, r: Formula)
    | MakeNot(f: Formula)
    | MakeEqual(l: Formula, r: Formula)

  /** Integer formulas and boolean formulas. */
  function Sort(f: Formula): FormulaType {
    match f
    case IntVariable(_) => IntegerType
    case MakeNumber(_) => IntegerType
    case NumAdd(_, _) => IntegerType
    case NumDivide(_, _) => IntegerType
    case NumModulo(_, _) => IntegerType
    case NumMultiply(_, _) => IntegerType
    case _ => BooleanType
  }

  /**
   * Every operation receives operands of the sort it takes: arithmetic and
   * numeric comparisons integers, conjunction and negation booleans, and
   * an equality two operands of the same sort.
   */
  predicate WellSorted(f: Formula) {
    match f
    case NumAdd(l, r) => WellSorted(l) && WellSorted(r) && IntOperands(l, r)
    case NumDivide(l, r) => WellSorted(l) && WellSorted(r) && IntOperands(l, r)
    case NumModulo(l, r) => WellSorted(l) && WellSorted(r) && IntOperands(l, r)
    case NumMultiply(l, r) => WellSorted(l) && WellSorted(r) && IntOperands(l, r)
    case NumEqual(l, r) => WellSorted(l) && WellSorted(r) && IntOperands(l, r)
    case NumLessThan(l, r) => WellSorted(l) && WellSorted(r) && IntOperands(l, r)
    case MakeLessOrEqual(l, r, _) => WellSorted(l) && WellSorted(r) && IntOperands(l, r)
    case BoolAnd(l, r) => WellSorted(l) && WellSorted(r) && Sort(l) == BooleanType && Sort(r) == BooleanType
    case MakeNot(g) => WellSorted(g) && Sort(g) == BooleanType
    case MakeEqual(l, r) => WellSorted(l) && WellSorted(r) && Sort(l) == Sort(r)
    case _ => true
  }

  predicate IntOperands(l: Formula, r: Formula) {
    Sort(l) == IntegerType && Sort(r) == IntegerType
  }

  // ---------------------------------------------------------------------
  // The translation
  // ---------------------------------------------------------------------

  /**
   * Why no formula is produced: `Aborted` is the null the translation
   * returns for an unhandled value, `WrongSort` a failing cast of a
   * sub-formula or a non-numeric operand of the formula manager's `<=`,
   * `UnhandledType` the assertion on identifier types.
   */
  datatype FormulaError = Aborted | WrongSort | UnhandledType

  /** getFormulaType. */
  function FormulaTypeOf(t: IdentifierType): (r: Result<FormulaType, FormulaError>)
    ensures r == Ok(BooleanType) <==> t == JavaSimpleType(JBoolean)
    ensures r.Err? <==> t == OtherIdentifierType || t == JavaSimpleType(JOtherBasic)
    ensures t.CTypeAny? ==> r == Ok(IntegerType)
  {
    match t
    case JavaSimpleType(basic) =>
      if basic == JBoolean then Ok(BooleanType)
      else if basic == JOtherBasic then Err(UnhandledType)
      else Ok(IntegerType)
    case CTypeAny => Ok(IntegerType)
    case OtherIdentifierType => Err(UnhandledType)
  }

  /** The cast to an integer formula. */
  function AsInteger(r: Result<Formula, FormulaError>): (s: Result<Formula, FormulaError>)
    ensures s.Ok? <==> r.Ok? && Sort(r.value) == IntegerType
    ensures s.Ok? ==> s == r
  {
    if r.Err? then r else if Sort(r.value) == IntegerType then r else Err(WrongSort)
  }

  /** The cast to a boolean formula. */
  function AsBoolean(r: Result<Formula, FormulaError>): (s: Result<Formula, FormulaError>)
    ensures s.Ok? <==> r.Ok? && Sort(r.value) == BooleanType
    ensures s.Ok? ==> s == r
  {
    if r.Err? then r else if Sort(r.value) == BooleanType then r else Err(WrongSort)
  }

  function Combine(a: Result<Formula, FormulaError>, b: Result<Formula, FormulaError>,
                   op: (Formula, Formula) -> Formula): Result<Formula, FormulaError> {
    if a.Err? then Err(a.error) else if b.Err? then Err(b.error) else Ok(op(a.value, b.value))
  }

  /**
   * The visitor on expressions.  `show` renders an expression as its
   * string, `identifierName` a symbolic identifier.  An operation the
   * translation does not encode becomes an integer variable named after
   * the expression.  Every formula it produces is well sorted.
   */
  function Translate(e: Expr, show: Expr -> string, identifierName: nat -> string): (r: Result<Formula, FormulaError>)
    ensures r.Ok? ==> WellSorted(r.value)
    decreases e
  {
    match e
    case Addition(a, b) =>
      Combine(AsInteger(Translate(a, show, identifierName)), AsInteger(Translate(b, show, identifierName)),
              (x, y) => NumAdd(x, y))
    case Division(a, b) =>
      Combine(AsInteger(Translate(a, show, identifierName)), AsInteger(Translate(b, show, identifierName)),
              (x, y) => NumDivide(x, y))
    case Modulo(a, b) =>
      Combine(AsInteger(Translate(a, show, identifierName)), AsInteger(Translate(b, show, identifierName)),
              (x, y) => NumModulo(x, y))
    case Multiplication(a, b) =>
      Combine(AsInteger(Translate(a, show, identifierName)), AsInteger(Translate(b, show, identifierName)),
              (x, y) => NumMultiply(x, y))
    case EqualsExpr(a, b) =>
      Combine(AsInteger(Translate(a, show, identifierName)), AsInteger(Translate(b, show, identifierName)),
              (x, y) => NumEqual(x, y))
    case LessThan(a, b) =>
      Combine(AsInteger(Translate(a, show, identifierName)), AsInteger(Translate(b, show, identifierName)),
              (x, y) => NumLessThan(x, y))
    case LessThanOrEqual(a, b) =>
      Combine(AsInteger(Translate(a, show, identifierName)), AsInteger(Translate(b, show, identifierName)),
              (x, y) => MakeLessOrEqual(x, y, SIGNED))
    case LogicalAnd(a, b) =>
      Combine(AsBoolean(Translate(a, show, identifierName)), AsBoolean(Translate(b, show, identifierName)),
              (x, y) => BoolAnd(x, y))
    case LogicalNot(a) =>
      var t := AsBoolean(Translate(a, show, identifierName));
      if t.Err? then t else Ok(MakeNot(t.value))
    case ConstantExpr(v) => TranslateConstant(e, v, show, identifierName)
    case _ => Ok(IntVariable(show(e)))
  }

  /** The comparison flag the expression `<=` passes. */
  const SIGNED := true

  /** A constant: exact integers become numbers, booleans literals, symbolic values are translated. */
  function TranslateConstant(e: Expr, v: Value, show: Expr -> string, identifierName: nat -> string)
    : (r: Result<Formula, FormulaError>)
    requires v < e
    ensures r.Ok? ==> WellSorted(r.value)
    decreases e, 0
  {
    match v
    case NumericValue(longValue, integral) =>
      if integral then Ok(MakeNumber(longValue)) else Ok(IntVariable(show(e)))
    case BooleanValue(b) => Ok(MakeBoolean(b))
    case SymbolicIdentifier(id, t) =>
      var sort := FormulaTypeOf(t);
      if sort.Err? then Err(sort.error)
      else if sort.value == IntegerType then Ok(IntVariable(identifierName(id)))
      else Ok(BoolVariable(identifierName(id)))
    case SymbolicExpression(inner) => Translate(inner, show, identifierName)
    case OtherValue => Err(Aborted)
  }

  // ---------------------------------------------------------------------
  // Constraints
  // ---------------------------------------------------------------------

  /** createBooleanFormula: an integer f becomes "not (f = 0)", a boolean stays. */
  function ToBoolean(f: Formula): (r: Formula)
    ensures Sort(r) == BooleanType
    ensures WellSorted(f) ==> WellSorted(r)
    ensures Sort(f) == BooleanType ==> r == f
    ensures Sort(f) == IntegerType ==> r == MakeNot(NumEqual(f, MakeNumber(0)))
  {
    if Sort(f) == IntegerType then MakeNot(NumEqual(f, MakeNumber(0))) else f
  }

  /** The relation of an equality constraint: the side facing a boolean is coerced to boolean. */
  function CoercedEqual(x: Formula, y: Formula): (r: Formula)
    ensures r.MakeEqual? && Sort(r.l) == Sort(r.r)
    ensures WellSorted(x) && WellSorted(y) ==> WellSorted(r)
  {
    if Sort(x) == BooleanType then MakeEqual(x, ToBoolean(y))
    else if Sort(y) == BooleanType then MakeEqual(ToBoolean(x), y)
    else MakeEqual(x, y)
  }

  /** The relation itself, before a negation (the creators of the source). */
  function CreateRelation(c: Constraint, x: Formula, y: Formula): (r: Result<Formula, FormulaError>)
    ensures r.Ok? ==> Sort(r.value) == BooleanType && !r.value.MakeNot?
    ensures r.Ok? && WellSorted(x) && WellSorted(y) ==> WellSorted(r.value)
    ensures r.Err? ==> r == Err(WrongSort) && !c.EqualConstraint?
    ensures !c.EqualConstraint? ==> (r.Ok? <==> IntOperands(x, y))
    ensures c.LessConstraint? && r.Ok? ==> r.value == NumLessThan(x, y)
    ensures c.LessOrEqualConstraint? && r.Ok? ==> r.value == MakeLessOrEqual(x, y, false)
  {
    match c
    case LessConstraint(_, _, _) =>
      if Sort(x) == IntegerType && Sort(y) == IntegerType then Ok(NumLessThan(x, y)) else Err(WrongSort)
    case LessOrEqualConstraint(_, _, _) =>
      if Sort(x) == IntegerType && Sort(y) == IntegerType then Ok(MakeLessOrEqual(x, y, false)) else Err(WrongSort)
    case EqualConstraint(_, _, _) => Ok(CoercedEqual(x, y))
  }

  /** transformConstraint: both operands, the relation, and one negation for a non-positive constraint. */
  function TranslateConstraint(c: Constraint, show: Expr -> string, identifierName: nat -> string)
    : (r: Result<Formula, FormulaError>)
    ensures r.Ok? ==> WellSorted(r.value) && Sort(r.value) == BooleanType
  {
    var left := Translate(c.left, show, identifierName);
    var right := Translate(c.right, show, identifierName);
    if left.Err? then left
    else if right.Err? then right
    else
      var relation := CreateRelation(c, left.value, right.value);
      if relation.Err? || c.positive then relation else Ok(MakeNot(relation.value))
  }

  // ---------------------------------------------------------------------
  // Properties of the translation
  // ---------------------------------------------------------------------

  predicate Unsupported(e: Expr) {
    e.BinaryAnd? || e.BinaryNot? || e.BinaryOr? || e.BinaryXor? || e.LogicalOr? || e.ShiftLeft? || e.ShiftRight?
  }

  /** Bitwise operations, shifts and logical or are not encoded: each becomes a variable named after the expression. */
  lemma UnsupportedBecomesVariable(e: Expr, show: Expr -> string, identifierName: nat -> string)
    requires Unsupported(e)
    ensures Translate(e, show, identifierName) == Ok(IntVariable(show(e)))
  {
  }

  predicate Arithmetic(e: Expr) {
    e.Addition? || e.Division? || e.Modulo? || e.Multiplication?
  }

  /** The integer operation an arithmetic expression stands for. */
  function ArithmeticFormula(e: Expr, x: Formula, y: Formula): Formula
    requires Arithmetic(e)
  {
    if e.Addition? then NumAdd(x, y)
    else if e.Division? then NumDivide(x, y)
    else if e.Modulo? then NumModulo(x, y)
    else NumMultiply(x, y)
  }

  /**
   * Addition, division, modulo and multiplication become the matching
   * integer operation on the translated operands, and fail exactly when an
   * operand fails or is boolean.
   */
  lemma ArithmeticTranslation(e: Expr, show: Expr -> string, identifierName: nat -> string)
    requires Arithmetic(e)
    ensures var a := Translate(e.op1, show, identifierName);
            var b := Translate(e.op2, show, identifierName);
      (Translate(e, show, identifierName).Ok? <==>
         a.Ok? && b.Ok? && Sort(a.value) == IntegerType && Sort(b.value) == IntegerType)
      && (Translate(e, show, identifierName).Ok? ==>
            Translate(e, show, identifierName) == Ok(ArithmeticFormula(e, a.value, b.value))
            && Sort(Translate(e, show, identifierName).value) == IntegerType)
  {
  }

  /**
   * Constants: an exact integer becomes a number, any other numeric value a
   * variable named after the constant, a boolean a literal, a symbolic
   * expression its own translation, and any other value no formula.
   */
  lemma ConstantTranslation(v: Value, show: Expr -> string, identifierName: nat -> string)
    ensures var r := Translate(ConstantExpr(v), show, identifierName);
      && (v.NumericValue? && v.integral ==> r == Ok(MakeNumber(v.longValue)))
      && (v.NumericValue? && !v.integral ==> r == Ok(IntVariable(show(ConstantExpr(v)))))
      && (v.BooleanValue? ==> r == Ok(MakeBoolean(v.b)))
      && (v.SymbolicExpression? ==> r == Translate(v.expression, show, identifierName))
      && (v.OtherValue? ==> r == Err(Aborted))
  {
  }

  /** A symbolic identifier becomes a variable of the sort its type maps to, named after it. */
  lemma IdentifierTranslation(id: nat, t: IdentifierType, show: Expr -> string, identifierName: nat -> string)
    ensures var r := Translate(ConstantExpr(SymbolicIdentifier(id, t)), show, identifierName);
      (r.Ok? <==> FormulaTypeOf(t).Ok?)
      && (r.Ok? ==> Sort(r.value) == FormulaTypeOf(t).value
                    && (r.value == IntVariable(identifierName(id)) || r.value == BoolVariable(identifierName(id))))
  {
  }

  /**
   * A positive constraint is the relation itself; a non-positive one is
   * exactly one negation of the same relation.
   */
  lemma ConstraintNegation(c: Constraint, show: Expr -> string, identifierName: nat -> string)
    ensures var pos := TranslateConstraint(c.(positive := true), show, identifierName);
            var neg := TranslateConstraint(c.(positive := false), show, identifierName);
      (pos.Ok? <==> neg.Ok?)
      && (pos.Ok? ==> !pos.value.MakeNot? && neg == Ok(MakeNot(pos.value)))
      && (pos.Err? ==> neg == pos)
  {
  }

  /**
   * Both `<=` succeed exactly when both operands translate to integers, and
   * then compare them: the expression signed, the constraint unsigned.
   */
  lemma LessOrEqualSignedness(a: Expr, b: Expr, positive: bool, show: Expr -> string, identifierName: nat -> string)
    ensures var l := Translate(a, show, identifierName);
            var r := Translate(b, show, identifierName);
            var e := Translate(LessThanOrEqual(a, b), show, identifierName);
      (e.Ok? <==> l.Ok? && r.Ok? && IntOperands(l.value, r.value))
      && (e.Ok? ==> e.value == MakeLessOrEqual(l.value, r.value, true))
    ensures var l := Translate(a, show, identifierName);
            var r := Translate(b, show, identifierName);
            var c := TranslateConstraint(LessOrEqualConstraint(a, b, true), show, identifierName);
      (c.Ok? <==> l.Ok? && r.Ok? && IntOperands(l.value, r.value))
      && (c.Ok? ==> c.value == MakeLessOrEqual(l.value, r.value, false))
  {
    LessOrEqualExpression(a, b, show, identifierName);
    LessOrEqualConstraintTranslation(a, b, show, identifierName);
  }

  lemma LessOrEqualExpression(a: Expr, b: Expr, show: Expr -> string, identifierName: nat -> string)
    ensures var l := Translate(a, show, identifierName);
            var r := Translate(b, show, identifierName);
            var e := Translate(LessThanOrEqual(a, b), show, identifierName);
      (e.Ok? <==> l.Ok? && r.Ok? && IntOperands(l.value, r.value))
      && (e.Ok? ==> e.value == MakeLessOrEqual(l.value, r.value, true))
  {
  }

  lemma LessOrEqualConstraintTranslation(a: Expr, b: Expr, show: Expr -> string, identifierName: nat -> string)
    ensures var l := Translate(a, show, identifierName);
            var r := Translate(b, show, identifierName);
            var c := TranslateConstraint(LessOrEqualConstraint(a, b, true), show, identifierName);
      (c.Ok? <==> l.Ok? && r.Ok? && IntOperands(l.value, r.value))
      && (c.Ok? ==> c.value == MakeLessOrEqual(l.value, r.value, false))
  {
  }

  predicate Comparison(e: Expr) {
    e.EqualsExpr? || e.LessThan?
  }

  /** The numeric comparison a comparison expression stands for. */
  function ComparisonFormula(e: Expr, x: Formula, y: Formula): Formula
    requires Comparison(e)
  {
    if e.EqualsExpr? then NumEqual(x, y) else NumLessThan(x, y)
  }

  /**
   * `==` and `<` compare the translated operands, left before right, and
   * succeed exactly when both operands translate to integers; a failing
   * left operand passes its error on, and an operand of the wrong sort is
   * a WrongSort error.
   */
  lemma ComparisonTranslation(e: Expr, show: Expr -> string, identifierName: nat -> string)
    requires Comparison(e)
    ensures var a := Translate(e.op1, show, identifierName);
            var b := Translate(e.op2, show, identifierName);
            var t := Translate(e, show, identifierName);
      (t.Ok? <==> a.Ok? && b.Ok? && IntOperands(a.value, b.value))
      && (t.Ok? ==> t.value == ComparisonFormula(e, a.value, b.value) && Sort(t.value) == BooleanType)
      && (a.Err? ==> t == Err(a.error))
      && (t.Err? && a.Ok? && b.Ok? ==> t == Err(WrongSort))
  {
  }

  /**
   * `&&` conjoins the translated operands and succeeds exactly when both
   * are boolean; an integer operand is a WrongSort error.
   */
  lemma ConjunctionTranslation(a: Expr, b: Expr, show: Expr -> string, identifierName: nat -> string)
    ensures var l := Translate(a, show, identifierName);
            var r := Translate(b, show, identifierName);
            var t := Translate(LogicalAnd(a, b), show, identifierName);
      (t.Ok? <==> l.Ok? && r.Ok? && Sort(l.value) == BooleanType && Sort(r.value) == BooleanType)
      && (t.Ok? ==> t.value == BoolAnd(l.value, r.value))
      && (l.Err? ==> t == Err(l.error))
      && (t.Err? && l.Ok? && r.Ok? ==> t == Err(WrongSort))
  {
  }

  /** `!` negates the translated operand and succeeds exactly when it is boolean. */
  lemma NegationTranslation(a: Expr, show: Expr -> string, identifierName: nat -> string)
    ensures var o := Translate(a, show, identifierName);
            var t := Translate(LogicalNot(a), show, identifierName);
      (t.Ok? <==> o.Ok? && Sort(o.value) == BooleanType)
      && (t.Ok? ==> t.value == MakeNot(o.value))
      && (o.Err? ==> t == o)
      && (t.Err? && o.Ok? ==> t == Err(WrongSort))
  {
  }

  /**
   * A `<` constraint compares the translated operands, left before right,
   * and succeeds exactly when both translate to integers.
   */
  lemma LessConstraintTranslation(a: Expr, b: Expr, show: Expr -> string, identifierName: nat -> string)
    ensures var l := Translate(a, show, identifierName);
            var r := Translate(b, show, identifierName);
            var c := TranslateConstraint(LessConstraint(a, b, true), show, identifierName);
      (c.Ok? <==> l.Ok? && r.Ok? && IntOperands(l.value, r.value))
      && (c.Ok? ==> c.value == NumLessThan(l.value, r.value))
      && (c.Err? && l.Ok? && r.Ok? ==> c == Err(WrongSort))
  {
  }

  /**
   * In an equality constraint both sides end up of one sort: next to a
   * boolean side an integer f appears as "not (f = 0)".
   */
  lemma EqualConstraintCoercion(a: Expr, b: Expr, show: Expr -> string, identifierName: nat -> string)
    ensures var l := Translate(a, show, identifierName);
            var r := Translate(b, show, identifierName);
            var c := TranslateConstraint(EqualConstraint(a, b, true), show, identifierName);
      (c.Ok? <==> l.Ok? && r.Ok?)
      && (c.Ok? ==> c.value.MakeEqual? && Sort(c.value.l) == Sort(c.value.r))
      && (c.Ok? && Sort(l.value) == BooleanType ==> c.value == MakeEqual(l.value, ToBoolean(r.value)))
      && (c.Ok? && Sort(l.value) == IntegerType && Sort(r.value) == BooleanType ==>
            c.value == MakeEqual(MakeNot(NumEqual(l.value, MakeNumber(0))), r.value))
      && (c.Ok? && Sort(l.value) == IntegerType && Sort(r.value) == IntegerType ==> c.value == MakeEqual(l.value, r.value))
  {
  }
}

/** Script values of src/base/gvm/Value.cpp: what `+ - * /` mean, with their type errors. */
module GValue {
  /** A C++ int. */
  newtype Int32 = x: int | -0x8000_0000 <= x <= 0x7fff_ffff

  /** `Function` stands for the function object in slot 0; doubles are reals. */
  datatype Value = Empty | Double(d: real) | Str(s: string) | Bool(b: bool) | Int(i: Int32) | Function

  /** A thrown runtime_error, or a bad_cast when no handler matches the operand types. */
  datatype Result = Ok(value: Value) | RuntimeError | BadCast

  datatype BinOp = Add | Subtract | Multiply | Divide

  /** Two's complement wrap-around of an int sum. */
  function Wrap32(x: int): (y: int)
    ensures -0x8000_0000 <= y <= 0x7fff_ffff
    ensures -0x8000_0000 <= x <= 0x7fff_ffff ==> y == x
  {
    (x + 0x8000_0000) % 0x1_0000_0000 - 0x8000_0000
  }

  function Product(l: real, r: real): real {
    l * r
  }

  function BoolNumber(b: bool): int {
    if b then 1 else 0
  }

  function Plus(left: Value, right: Value): Result {
    match left
    case Double(l) =>
      (match right
       case Double(r) => Ok(Double(l + r))
       case Int(r) => Ok(Double(l + r as real))
       case Str(_) => RuntimeError
       case Bool(_) => RuntimeError
       case _ => BadCast)
    case Str(l) =>
      (match right
       case Str(r) => Ok(Str(l + r))
       case Double(_) => RuntimeError
       case Bool(_) => RuntimeError
       case Int(_) => RuntimeError
       case _ => BadCast)
    case Int(l) =>
      (match right
       case Double(r) => Ok(Double(l as real + r))
       case Int(r) => Ok(Double(Wrap32(l as int + r as int) as real))
       case _ => BadCast)
    case Bool(l) =>
      (match right
       case Double(_) => RuntimeError
       case Str(_) => RuntimeError
       case Bool(r) => Ok(Bool(BoolNumber(l) + BoolNumber(r) != 0))
       case _ => BadCast)
    case _ => BadCast
  }

  function Minus(left: Value, right: Value): Result {
    match left
    case Double(l) =>
      (match right
       case Double(r) => Ok(Double(l - r))
       case Int(r) => Ok(Double(l - r as real))
       case Str(_) => RuntimeError
       case Bool(_) => RuntimeError
       case _ => BadCast)
    case Str(_) =>
      (match right
       case Double(_) => RuntimeError
       case Str(_) => RuntimeError
       case Bool(_) => RuntimeError
       case _ => BadCast)
    case Int(l) =>
      (match right
       case Double(r) => Ok(Double(l as real - r))
       case Int(r) => Ok(Double(Wrap32(l as int - r as int) as real))
       case _ => BadCast)
    case Bool(l) =>
      (match right
       case Double(_) => RuntimeError
       case Str(_) => RuntimeError
       case Bool(r) => Ok(Bool(BoolNumber(l) - BoolNumber(r) != 0))
       case _ => BadCast)
    case _ => BadCast
  }

  function Times(left: Value, right: Value): Result {
    match left
    case Double(l) =>
      (match right
       case Double(r) => Ok(Double(Product(l, r)))
       case Int(r) => Ok(Double(Product(l, r as real)))
       case Str(_) => RuntimeError
       case Bool(_) => RuntimeError
       case _ => BadCast)
    case Str(_) =>
      (match right
       case Double(_) => RuntimeError
       case Str(_) => RuntimeError
       case Bool(_) => RuntimeError
       case _ => BadCast)
    case Int(l) =>
      (match right
       case Double(r) => Ok(Double(Product(l as real, r)))
       case Int(r) => Ok(Double(Product(l as real, r as real)))
       case _ => BadCast)
    case Bool(l) =>
      (match right
       case Double(_) => RuntimeError
       case Str(_) => RuntimeError
       case Bool(r) => Ok(Bool(BoolNumber(l) * BoolNumber(r) != 0))
       case _ => BadCast)
    case _ => BadCast
  }

  function Over(left: Value, right: Value): Result {
    match left
    case Double(l) =>
      (match right
       case Double(r) => if r == 0.0 then RuntimeError else Ok(Double(l / r))
       case Int(r) => if r == 0 then RuntimeError else Ok(Double(l / (r as real)))
       case Str(_) => RuntimeError
       case Bool(_) => RuntimeError
       case _ => BadCast)
    case Str(_) =>
      (match right
       case Double(_) => RuntimeError
       case Str(_) => RuntimeError
       case Bool(_) => RuntimeError
       case _ => BadCast)
    case Int(l) =>
      (match right
       case Double(r) => if r == 0.0 then RuntimeError else Ok(Double(l as real / r))
       case Int(r) => if r == 0 then RuntimeError else Ok(Double(l as real / (r as real)))
       case _ => BadCast)
    case Bool(_) =>
      (match right
       case Double(_) => RuntimeError
       case Str(_) => RuntimeError
       case Bool(_) => RuntimeError
       case _ => BadCast)
    case _ => BadCast
  }

  function Apply(op: BinOp, left: Value, right: Value): Result {
    match op
    case Add => Plus(left, right)
    case Subtract => Minus(left, right)
    case Multiply => Times(left, right)
    case Divide => Over(left, right)
  }

  // ------------------------------------------------------------------ what the operators compute

  function AsNumber(v: Value): real {
    match v
    case Double(d) => d
    case Int(i) => i as real
    case _ => 0.0
  }

  predicate InInt(x: int) {
    -0x8000_0000 <= x <= 0x7fff_ffff
  }

  predicate IsNumber(v: Value) {
    v.Double? || v.Int?
  }

  /** Two ints whose sum or difference is no int. */
  predicate Overflows(op: BinOp, a: Value, b: Value) {
    && a.Int? && b.Int?
    && ((op == Add && !InInt(a.i as int + b.i as int)) || (op == Subtract && !InInt(a.i as int - b.i as int)))
  }

  /** On numbers the operators are those of real arithmetic, but for int overflow and division by zero. */
  lemma NumbersMean(op: BinOp, a: Value, b: Value)
    requires IsNumber(a) && IsNumber(b) && !Overflows(op, a, b)
    ensures op == Add ==> Apply(op, a, b) == Ok(Double(AsNumber(a) + AsNumber(b)))
    ensures op == Subtract ==> Apply(op, a, b) == Ok(Double(AsNumber(a) - AsNumber(b)))
    ensures op == Multiply ==> Apply(op, a, b) == Ok(Double(AsNumber(a) * AsNumber(b)))
    ensures op == Divide && AsNumber(b) == 0.0 ==> Apply(op, a, b) == RuntimeError
    ensures op == Divide && AsNumber(b) != 0.0 ==> Apply(op, a, b) == Ok(Double(AsNumber(a) / AsNumber(b)))
  {
    hide Product, Wrap32;
    match op
    case Add => WrapStays(if a.Int? && b.Int? then a.i as int + b.i as int else 0);
    case Subtract => WrapStays(if a.Int? && b.Int? then a.i as int - b.i as int else 0);
    case Multiply => TimesMeans(a, b);
    case Divide =>
  }

  lemma TimesMeans(a: Value, b: Value)
    requires IsNumber(a) && IsNumber(b)
    ensures Times(a, b) == Ok(Double(AsNumber(a) * AsNumber(b)))
  {
    ProductMeans(AsNumber(a), AsNumber(b));
    hide Product;
    assert Times(a, b) == Ok(Double(Product(AsNumber(a), AsNumber(b))));
  }

  lemma ProductMeans(x: real, y: real)
    ensures Product(x, y) == x * y
  {
  }

  lemma WrapStays(x: int)
    requires InInt(x)
    ensures Wrap32(x) == x
  {
  }

  /** Where ints overflow, the result is the int that differs from the true one by 2^32. */
  lemma OverflowMeans(op: BinOp, a: Value, b: Value)
    requires Overflows(op, a, b)
    ensures
      var x := if op == Add then a.i as int + b.i as int else a.i as int - b.i as int;
      exists y: int ::
        InInt(y) && (y == x + 0x1_0000_0000 || y == x - 0x1_0000_0000) && Apply(op, a, b) == Ok(Double(y as real))
  {
    var x := if op == Add then a.i as int + b.i as int else a.i as int - b.i as int;
    var y := if x < 0 then x + 0x1_0000_0000 else x - 0x1_0000_0000;
    assert Wrap32(x) == y && InInt(y);
    assert Apply(op, a, b) == Ok(Double(y as real));
  }

  /** Strings are only added: in order. */
  lemma StringsMean(op: BinOp, a: string, b: string)
    ensures Apply(op, Str(a), Str(b)) == if op == Add then Ok(Str(a + b)) else RuntimeError
  {
  }

  /** Booleans are or, exclusive or and and; they are not divided. */
  lemma BooleansMean(a: bool, b: bool)
    ensures Apply(Add, Bool(a), Bool(b)) == Ok(Bool(a || b)) && Apply(Subtract, Bool(a), Bool(b)) == Ok(Bool(a != b))
    ensures Apply(Multiply, Bool(a), Bool(b)) == Ok(Bool(a && b)) && Apply(Divide, Bool(a), Bool(b)) == RuntimeError
  {
  }

  /** The operands that no handler takes, and those whose handler throws. */
  lemma FailuresMean(op: BinOp, a: Value, b: Value)
    ensures Apply(op, a, b) == BadCast <==>
              || a.Empty? || a.Function? || b.Empty? || b.Function?
              || (a.Int? && (b.Str? || b.Bool?))
              || (b.Int? && (a.Bool? || (a.Str? && op != Add)))
    ensures Apply(op, a, b) == RuntimeError <==>
              || (a.Double? && (b.Str? || b.Bool?))
              || (a.Str? && (b.Double? || b.Bool?))
              || (a.Bool? && (b.Double? || b.Str?))
              || (a.Str? && b.Int? && op == Add)
              || (a.Str? && b.Str? && op != Add)
              || (a.Bool? && b.Bool? && op == Divide)
              || (IsNumber(a) && IsNumber(b) && op == Divide && AsNumber(b) == 0.0)
  {
    hide Product, Wrap32, BoolNumber;
  }
}

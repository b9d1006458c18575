/** JSON fields as Python reads them: what compares, what subtracts and what raises. */
module JsonValues {
  import opened Wrappers

  /** A field: absent from its object, null, or a scalar. */
  datatype JVal = Absent | Null | Bool(b: bool) | Int(n: int) | Real(r: real) | Str(s: string)

  /** `value is None` after `dict.get`. */
  predicate IsNone(v: JVal) {
    v.Absent? || v.Null?
  }

  /** `value == n`: booleans and floats compare by number. */
  predicate EqualsInt(v: JVal, n: int) {
    match v
    case Int(m) => m == n
    case Bool(b) => (if b then 1 else 0) == n
    case Real(r) => r == n as real
    case _ => false
  }

  /** Python's `==` on two fields, as `dict.get` returns them. */
  predicate Same(a: JVal, b: JVal) {
    match a
    case Int(n) => EqualsInt(b, n)
    case Bool(x) => EqualsInt(b, if x then 1 else 0)
    case Real(r) => (b.Real? && b.r == r) || (b.Int? && b.n as real == r) || (b.Bool? && (if b.b then 1.0 else 0.0) == r)
    case Str(s) => b == a
    case _ => IsNone(b)
  }

  /** `n - value`: subtracting null or text raises. */
  function Minus(n: int, v: JVal): Option<JVal> {
    match v
    case Int(m) => Some(Int(n - m))
    case Bool(b) => Some(Int(n - if b then 1 else 0))
    case Real(r) => Some(Real(n as real - r))
    case _ => None
  }

  // ----- numbers -----

  predicate IsNumber(v: JVal) {
    v.Bool? || v.Int? || v.Real?
  }

  /** `isinstance(value, int)`: a boolean is an integer. */
  predicate IsIntegral(v: JVal) {
    v.Bool? || v.Int?
  }

  /** What `get` with a zero for its default reads: a number or nothing at all. */
  predicate ReadsAsNumber(v: JVal) {
    v.Absent? || IsNumber(v)
  }

  function Value(v: JVal): real {
    match v
    case Bool(b) => if b then 1.0 else 0.0
    case Int(n) => n as real
    case Real(r) => r
    case _ => 0.0
  }

  function Pow2(n: nat): (r: int)
    ensures r > 0
  {
    if n == 0 then 1 else 2 * Pow2(n - 1)
  }

  /** The first integer that rounds past the largest double: halfway to `2 ** 1024`. */
  const FLOAT_LIMIT: int := Pow2(1024) - Pow2(970)

  /** Converting the number to a double does not overflow. */
  predicate Floats(x: real) {
    -(FLOAT_LIMIT as real) < x < FLOAT_LIMIT as real
  }

  /** Arithmetic with a float converts an integer operand first. */
  predicate ConvertsToFloat(v: JVal) {
    v.Int? ==> Floats(Value(v))
  }

  lemma {:induction false} Pow2Grows(m: nat, n: nat)
    requires m < n
    ensures Pow2(n) >= 2 * Pow2(m)
  {
    if m < n - 1 {
      Pow2Grows(m, n - 1);
    }
  }

  /** The limit is halfway between the largest double, 53 bits of ones, and the next power of two. */
  lemma LimitIsHalfway()
    ensures FLOAT_LIMIT - Pow2(971) * (Pow2(53) - 1) == Pow2(1024) - FLOAT_LIMIT
  {
    hide Pow2;
    Pow2Adds(971, 53);
    PowStep(970);
  }

  lemma PowStep(n: nat)
    ensures Pow2(n + 1) == 2 * Pow2(n)
  {
  }

  lemma {:induction false} Pow2Adds(m: nat, n: nat)
    ensures Pow2(m) * Pow2(n) == Pow2(m + n)
  {
    if n == 0 {
      assert Pow2(0) == 1;
    } else {
      Pow2Adds(m, n - 1);
      assert Pow2(n) == 2 * Pow2(n - 1) && Pow2(m + n) == 2 * Pow2(m + (n - 1));
    }
  }

  /** Small numbers convert. */
  lemma ZeroFloats()
    ensures Floats(0.0)
  {
    hide Pow2;
    Pow2Grows(970, 1024);
  }
}

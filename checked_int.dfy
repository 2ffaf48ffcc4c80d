/** Fixed-width integers of the C++ side: the type int32_t and a model of
    Mozilla's CheckedInt<int32_t>, whose arithmetic never wraps but marks
    the value invalid once a result leaves the range of int32_t. */
module CheckedInt {

  const INT32_MIN: int := -0x8000_0000
  const INT32_MAX: int := 0x7fff_ffff

  /** int32_t. Plain (unchecked) arithmetic on this type must be proved not
      to overflow, as signed overflow is undefined behaviour in C++. */
  newtype int32 = x: int | -0x8000_0000 <= x < 0x8000_0000

  predicate InInt32(x: int) {
    INT32_MIN <= x <= INT32_MAX
  }

  /** CheckedInt<int32_t>: the mathematical value of the computation so far
      and whether every step of it stayed inside int32_t. */
  datatype CheckedInt32 = CheckedInt32(value: int, isValid: bool)

  function FromInt32(x: int32): CheckedInt32 {
    CheckedInt32(x as int, true)
  }

  /** A compound assignment applied to a checked accumulator: `*= k` or `+= k`. */
  datatype Op = MulBy(k: int) | AddBy(k: int)

  /** The exact result of one step on an unbounded integer. */
  function Apply(v: int, op: Op): int {
    match op
    case MulBy(k) => v * k
    case AddBy(k) => v + k
  }

  /** One checked step: the result is valid only if the accumulator was
      valid and the exact result fits int32_t. */
  function Step(c: CheckedInt32, op: Op): CheckedInt32 {
    CheckedInt32(Apply(c.value, op), c.isValid && InInt32(Apply(c.value, op)))
  }

  /** A run of compound assignments on one accumulator, in program order. */
  function Run(c: CheckedInt32, ops: seq<Op>): CheckedInt32
    decreases |ops|
  {
    if ops == [] then c else Run(Step(c, ops[0]), ops[1..])
  }

  /** The same steps on an unbounded integer, with no overflow tracking. */
  function Eval(v: int, ops: seq<Op>): int
    decreases |ops|
  {
    if ops == [] then v else Eval(Apply(v, ops[0]), ops[1..])
  }

  /** Every intermediate result of the steps, starting from `v`, fits int32_t. */
  predicate FitsThroughout(v: int, ops: seq<Op>)
    decreases |ops|
  {
    ops == [] || (InInt32(Apply(v, ops[0])) && FitsThroughout(Apply(v, ops[0]), ops[1..]))
  }

  /** What makes a single `isValid()` test after several compound assignments
      sound: a checked run computes the exact value, and it is valid exactly
      when it started valid and no intermediate result left int32_t. In
      particular an overflow at any step is never forgotten by a later one. */
  lemma {:induction false} RunIsExactAndValidIffFits(c: CheckedInt32, ops: seq<Op>)
    ensures Run(c, ops).value == Eval(c.value, ops)
    ensures Run(c, ops).isValid <==> c.isValid && FitsThroughout(c.value, ops)
    decreases |ops|
  {
    if ops != [] {
      RunIsExactAndValidIffFits(Step(c, ops[0]), ops[1..]);
    }
  }
}

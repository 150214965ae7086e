/** Small shared vocabulary: optional values, positive integers and the
    signed 64-bit range that Go's int64 (and int, on 64-bit targets) covers. */
module Prelude {

  /** An optional value, used where a Go function returns a value and an error. */
  datatype Option<+T> = None | Some(value: T)

  type Pos = x: int | x >= 1 witness 1

  const MinInt64: int := -0x8000_0000_0000_0000
  const MaxInt64: int := 0x7fff_ffff_ffff_ffff

  type Int64 = x: int | MinInt64 <= x <= MaxInt64

  function Abs(x: int): nat {
    if x < 0 then -x else x
  }

  /** The magnitude m with a minus sign when neg. */
  function Signed(neg: bool, m: nat): (r: int)
    ensures Abs(r) == m && (r < 0 <==> neg && m > 0)
  {
    var v: int := m;
    if neg then -v else v
  }
}

/** Signed 64-bit values with the saturating arithmetic the server uses on timestamps. */
module Int64 {

  const I64_MIN: int := -0x8000_0000_0000_0000
  const I64_MAX: int := 0x7fff_ffff_ffff_ffff

  type i64 = x: int | I64_MIN <= x <= I64_MAX

  function SatAdd(x: i64, y: i64): (r: i64)
  {
    if x + y > I64_MAX then I64_MAX else if x + y < I64_MIN then I64_MIN else x + y
  }

  function SatSub(x: i64, y: i64): (r: i64)
  {
    if x - y > I64_MAX then I64_MAX else if x - y < I64_MIN then I64_MIN else x - y
  }

  function Min(x: i64, y: i64): (r: i64) { if x <= y then x else y }

  function Max(x: i64, y: i64): (r: i64) { if x <= y then y else x }
}

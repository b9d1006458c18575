/** The observer's unsigned and signed 64-bit arithmetic: each helper is exact or refuses. */
module ClockArith {
  import opened Wrappers

  const U64_LIMIT: int := 0x1_0000_0000_0000_0000
  const I64_MAX: int := 0x7FFF_FFFF_FFFF_FFFF
  const NANOS: int := 1_000_000_000

  type U64 = x: int | 0 <= x < U64_LIMIT

  predicate IsI64(x: int) {
    -I64_MAX - 1 <= x <= I64_MAX
  }

  datatype Timespec = Timespec(sec: int, nsec: int)

  /** Seconds and nanoseconds as nanoseconds, unless malformed or past 64 bits. */
  function TimespecToNs(t: Timespec): (r: Option<U64>)
    ensures r.Some? <==> t.sec >= 0 && 0 <= t.nsec < NANOS && t.sec * NANOS + t.nsec < U64_LIMIT
    ensures r.Some? ==> r.value == t.sec * NANOS + t.nsec
  {
    if t.sec < 0 || t.nsec < 0 || t.nsec >= NANOS then None
    else if t.sec > (U64_LIMIT - 1 - t.nsec) / NANOS then None
    else Some(t.sec * NANOS + t.nsec)
  }

  function DifferenceU64(newer: U64, older: U64): (r: Option<U64>)
    ensures r.Some? <==> newer >= older
    ensures r.Some? ==> r.value == newer - older
  {
    if newer < older then None else Some(newer - older)
  }

  /** The branches keep every intermediate unsigned; the smallest signed value is never produced. */
  function SignedDifference(left: U64, right: U64): (r: Option<int>)
    ensures r.Some? <==> -I64_MAX <= left - right <= I64_MAX
    ensures r.Some? ==> r.value == left - right && IsI64(r.value)
  {
    if left >= right then
      if left - right > I64_MAX then None else Some(left - right)
    else if right - left > I64_MAX then None
    else Some(-(right - left))
  }

  /** The midpoint of two reads cannot overflow. */
  function Midpoint(before: U64, after: U64): (r: U64)
    requires before <= after
    ensures before <= r <= after && (r - before == after - r || r - before + 1 == after - r)
  {
    before + (after - before) / 2
  }
}

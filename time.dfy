/**
 * The timeout conversions of platform/linux/src/time.c, on pal_timeout_t (a signed 64-bit count
 * of nanoseconds, negative meaning "forever") and struct timespec.
 *
 * C's int64_t, int and long are written out as ranges of Dafny's unbounded int; C's `/` and `%`
 * truncate toward zero and are written out as CDiv and CMod. The clock reading that
 * pal_timeout_to_abs_timespec takes from clock_gettime is a parameter here.
 */
module Timeout {

  const INT_MAX: int := 0x7fff_ffff
  const INT64_MIN: int := -0x8000_0000_0000_0000
  const INT64_MAX: int := 0x7fff_ffff_ffff_ffff
  const NS_PER_MS: int := 1_000_000
  const NS_PER_SEC: int := 1_000_000_000

  predicate InInt64(x: int) {
    INT64_MIN <= x <= INT64_MAX
  }

  /** pal_timeout_t: a relative timeout in nanoseconds. */
  datatype Timeout = Timeout(ns: int)

  /** struct timespec: seconds and nanoseconds, both 64-bit on the Linux targets. */
  datatype Timespec = Timespec(sec: int, nsec: int)

  /** pal_timeout_is_forever: a negative count of nanoseconds waits without end. */
  predicate IsForever(t: Timeout) {
    t.ns < 0
  }

  // ---------------------------------------------------------------------------------------
  // C integer arithmetic
  // ---------------------------------------------------------------------------------------

  /** C's `/` on integers: the quotient truncated toward zero. */
  function CDiv(a: int, b: int): (q: int)
    requires b > 0
    ensures a >= 0 ==> q * b <= a < q * b + b
    ensures a < 0 ==> q * b - b < a <= q * b
  {
    if a >= 0 then a / b else -((-a) / b)
  }

  /** C's `%` on integers: the remainder takes the sign of the dividend. */
  function CMod(a: int, b: int): (r: int)
    requires b > 0
    ensures a == CDiv(a, b) * b + r
    ensures a >= 0 ==> 0 <= r < b
    ensures a < 0 ==> -b < r <= 0
  {
    a - CDiv(a, b) * b
  }

  /** A 64-bit two's-complement sum that overflowed, as the hardware wraps it. */
  function Wrap64(x: int): (r: int)
    ensures InInt64(r) && (r - x) % 0x1_0000_0000_0000_0000 == 0
  {
    (x - INT64_MIN) % 0x1_0000_0000_0000_0000 + INT64_MIN
  }

  /** The conversion of an out-of-range int64_t to int as GCC and Clang do it: modulo 2^32. */
  function Wrap32(x: int): (r: int)
    ensures -INT_MAX - 1 <= r <= INT_MAX && (r - x) % 0x1_0000_0000 == 0
  {
    (x + INT_MAX + 1) % 0x1_0000_0000 - INT_MAX - 1
  }

  // ---------------------------------------------------------------------------------------
  // pal_timeout_to_poll_ms
  // ---------------------------------------------------------------------------------------

  /**
   * pal_timeout_to_poll_ms as written: the rounding-up sum t.ns + 999999 is formed in int64_t,
   * so for t.ns within 999999 of INT64_MAX it overflows; it is modelled wrapping round.
   */
  function PollMsAsWritten(t: Timeout): (r: int)
    requires InInt64(t.ns)
    ensures t.ns <= INT64_MAX - (NS_PER_MS - 1) ==> r == PollMs(t)
  {
    if t.ns < 0 then -1
    else if t.ns == 0 then 0
    else
      RoundUpAgrees(t.ns);
      var ms := CDiv(Wrap64(t.ns + (NS_PER_MS - 1)), NS_PER_MS);
      if ms > INT_MAX then INT_MAX else Wrap32(ms)
  }

  /** Where the sum does not overflow, adding 999999 and dividing rounds up as PollMs does. */
  lemma RoundUpAgrees(ns: int)
    requires 0 < ns <= INT64_MAX
    ensures ns <= INT64_MAX - (NS_PER_MS - 1) ==>
              CDiv(Wrap64(ns + (NS_PER_MS - 1)), NS_PER_MS) == CDiv(ns - 1, NS_PER_MS) + 1
  {
    if ns <= INT64_MAX - (NS_PER_MS - 1) {
      var q := CDiv(ns - 1, NS_PER_MS);
      assert Wrap64(ns + (NS_PER_MS - 1)) == ns + (NS_PER_MS - 1);
      assert (q + 1) * NS_PER_MS <= ns + (NS_PER_MS - 1) < (q + 2) * NS_PER_MS;
    }
  }

  /** The longest timeout turns into a negative poll timeout, which poll() takes as "forever". */
  lemma PollMsAsWrittenOverflows()
    ensures PollMsAsWritten(Timeout(INT64_MAX)) == -2077252341
  {
    assert Wrap64(INT64_MAX + (NS_PER_MS - 1)) == -9223372036853775810;
    assert CDiv(-9223372036853775810, NS_PER_MS) == -9223372036853;
  }

  /**
   * pal_timeout_to_poll_ms: the timeout in whole milliseconds for poll(), rounded up so that a
   * short wait does not become a busy loop, clamped to INT_MAX, and -1 (poll's "forever") for
   * a forever timeout. The rounding up is done without forming t.ns + 999999.
   */
  function PollMs(t: Timeout): (r: int)
    requires InInt64(t.ns)
    ensures IsForever(t) <==> r == -1
    ensures t.ns == 0 <==> r == 0
    ensures t.ns > 0 ==> 1 <= r <= INT_MAX
    ensures 0 < r < INT_MAX ==> (r - 1) * NS_PER_MS < t.ns <= r * NS_PER_MS
    ensures r == INT_MAX ==> (INT_MAX - 1) * NS_PER_MS < t.ns
  {
    if t.ns < 0 then -1
    else if t.ns == 0 then 0
    else
      var ms := CDiv(t.ns - 1, NS_PER_MS) + 1;
      if ms > INT_MAX then INT_MAX else ms
  }

  /** A longer timeout never polls for less time. */
  lemma PollMsMonotone(t: Timeout, u: Timeout)
    requires InInt64(t.ns) && InInt64(u.ns) && 0 <= t.ns <= u.ns
    ensures PollMs(t) <= PollMs(u)
  {
    if 0 < t.ns && PollMs(u) < INT_MAX {
      assert (PollMs(t) - 1) * NS_PER_MS < t.ns <= u.ns <= PollMs(u) * NS_PER_MS;
    }
  }

  /** The poll never ends before the timeout has passed, unless the clamp cut it short. */
  lemma PollMsCovers(t: Timeout)
    requires InInt64(t.ns) && !IsForever(t) && PollMs(t) < INT_MAX
    ensures t.ns <= PollMs(t) * NS_PER_MS < t.ns + NS_PER_MS
  {
  }

  // ---------------------------------------------------------------------------------------
  // pal_timeout_to_abs_timespec
  // ---------------------------------------------------------------------------------------

  /** The instant a timespec names, in nanoseconds. */
  function TotalNs(ts: Timespec): int {
    ts.sec * NS_PER_SEC + ts.nsec
  }

  /** A timespec in the form the kernel accepts: 0 <= tv_nsec < one second. */
  predicate Normalised(ts: Timespec) {
    0 <= ts.nsec < NS_PER_SEC
  }

  /**
   * pal_timeout_to_abs_timespec, with the CLOCK_REALTIME reading now given: the instant t
   * after now. The callers' side of the contract: t is not forever, and the sums fit their
   * 64-bit types.
   */
  function AbsTimespec(now: Timespec, t: Timeout): (r: Timespec)
    requires !IsForever(t) && InInt64(t.ns) && InInt64(now.nsec + t.ns)
    requires InInt64(now.sec + CDiv(now.nsec + t.ns, NS_PER_SEC))
    ensures TotalNs(r) == TotalNs(now) + t.ns
    ensures Normalised(now) ==> Normalised(r)
    ensures InInt64(r.sec) && InInt64(r.nsec)
  {
    var total := now.nsec + t.ns;
    Timespec(now.sec + CDiv(total, NS_PER_SEC), CMod(total, NS_PER_SEC))
  }

  /** Two normalised timespecs that name the same instant are the same. */
  lemma NormalisedUnique(a: Timespec, b: Timespec)
    requires Normalised(a) && Normalised(b) && TotalNs(a) == TotalNs(b)
    ensures a == b
  {
    assert (a.sec - b.sec) * NS_PER_SEC == b.nsec - a.nsec;
  }

  /** From a normalised now, the result is the one normalised timespec t after now. */
  lemma AbsTimespecIsUnique(now: Timespec, t: Timeout, other: Timespec)
    requires !IsForever(t) && InInt64(t.ns) && InInt64(now.nsec + t.ns)
    requires InInt64(now.sec + CDiv(now.nsec + t.ns, NS_PER_SEC))
    requires Normalised(now) && Normalised(other) && TotalNs(other) == TotalNs(now) + t.ns
    ensures other == AbsTimespec(now, t)
  {
    NormalisedUnique(other, AbsTimespec(now, t));
  }
}

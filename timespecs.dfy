/**
 * Kernel time values (`struct timespec`) as used by the ChronOS schedulers:
 * a seconds part and a nanoseconds part, compared lexicographically.
 */
module Timespecs {

  const NSEC_PER_SEC: int := 1_000_000_000

  datatype Timespec = Timespec(sec: int, nsec: int)

  /** A normalised timespec keeps its nanoseconds part below one second. */
  predicate Normalized(t: Timespec)
  {
    0 <= t.nsec < NSEC_PER_SEC
  }

  /** The instant a timespec denotes, in nanoseconds. */
  function Nanos(t: Timespec): int
  {
    t.sec * NSEC_PER_SEC + t.nsec
  }

  /**
   * `earlier_deadline(a, b)`. Its body is not part of this model; it is taken
   * as "`a` lies strictly before `b`", comparing the seconds first and the
   * nanoseconds only when the seconds agree, which is how the schedulers use
   * it for "has this deadline passed".
   */
  predicate EarlierDeadline(a: Timespec, b: Timespec)
  {
    a.sec < b.sec || (a.sec == b.sec && a.nsec < b.nsec)
  }

  /** The normalised timespec for an instant given in nanoseconds. */
  function FromNanos(n: int): (t: Timespec)
    ensures Normalized(t)
    ensures Nanos(t) == n
  {
    Timespec(n / NSEC_PER_SEC, n % NSEC_PER_SEC)
  }

  /**
   * `add_ts(a, b, r)`: the sum of two timespecs. Its body is not part of this
   * model; it is assumed to return the normalised sum.
   */
  function AddTs(a: Timespec, b: Timespec): (r: Timespec)
    ensures Normalized(r)
    ensures Nanos(r) == Nanos(a) + Nanos(b)
  {
    FromNanos(Nanos(a) + Nanos(b))
  }

  /** On normalised values the lexicographic order is the order of instants. */
  lemma EarlierIffFewerNanos(a: Timespec, b: Timespec)
    requires Normalized(a) && Normalized(b)
    ensures EarlierDeadline(a, b) <==> Nanos(a) < Nanos(b)
  {
    if a.sec < b.sec {
      assert Nanos(a) < (a.sec + 1) * NSEC_PER_SEC <= Nanos(b);
    } else if b.sec < a.sec {
      assert Nanos(b) < (b.sec + 1) * NSEC_PER_SEC <= Nanos(a);
    }
  }

  /** `EarlierDeadline` is a strict total order on timespecs. */
  lemma EarlierIsStrictTotalOrder(a: Timespec, b: Timespec, c: Timespec)
    ensures !EarlierDeadline(a, a)
    ensures EarlierDeadline(a, b) && EarlierDeadline(b, c) ==> EarlierDeadline(a, c)
    ensures EarlierDeadline(a, b) || EarlierDeadline(b, a) || a == b
  {
  }
}

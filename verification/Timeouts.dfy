/** Relative timeouts from the C library boundary to the broker's monotonic deadline. */
module Timeouts {
  import opened Types

  const NS: int := 1_000_000_000
  const POLL_NS: int := 250_000_000

  datatype Timespec = Timespec(sec: int, nsec: int)

  predicate Normal(t: Timespec) { 0 <= t.nsec < NS }

  function Ns(t: Timespec): int { t.sec * NS + t.nsec }

  datatype Packed = Rejected(errno: I32) | Accepted(ns: I64)

  /** The timeout check and packing at the C library boundary. */
  function Pack(seconds: I64, nanoseconds: I64): (r: Packed) {
    if seconds < 0 || nanoseconds < 0 || nanoseconds >= NS then Rejected(EINVAL)
    else if seconds > (I64_MAX - nanoseconds) / NS then Rejected(EOVERFLOW)
    else
      assert seconds * NS <= I64_MAX - nanoseconds;
      Accepted(seconds * NS + nanoseconds)
  }

  /** A well-formed pair is rejected exactly when packing would overflow, and an accepted pair is recovered by
      the division and remainder the broker splits it with. */
  lemma PackExact(seconds: I64, nanoseconds: I64)
    requires seconds >= 0 && 0 <= nanoseconds < NS
    ensures Pack(seconds, nanoseconds).Rejected? <==> seconds * NS + nanoseconds > I64_MAX
    ensures Pack(seconds, nanoseconds).Rejected? ==> Pack(seconds, nanoseconds).errno == EOVERFLOW
    ensures var p := Pack(seconds, nanoseconds);
            p.Accepted? ==> p.ns >= 0 && p.ns / NS == seconds && p.ns % NS == nanoseconds
  {
    var q := (I64_MAX - nanoseconds) / NS;
    assert q * NS <= I64_MAX - nanoseconds < (q + 1) * NS;
    if seconds > q {
      assert seconds * NS >= (q + 1) * NS;
    }
    assert (seconds * NS + nanoseconds) / NS == seconds;
  }

  /** Adds a sub-second amount to a normalised time, with one carry. */
  function AddNs(t: Timespec, nanoseconds: int): Timespec {
    if t.nsec + nanoseconds >= NS then Timespec(t.sec + 1, t.nsec + nanoseconds - NS)
    else Timespec(t.sec, t.nsec + nanoseconds)
  }

  /** Whether the deadline computation gives up exactness and saturates. */
  predicate Saturates(now: Timespec, timeout: I64) {
    timeout / NS > INT_MAX || now.sec > INT_MAX - timeout / NS
  }

  function Deadline(now: Timespec, timeout: I64): Timespec {
    if Saturates(now, timeout) then Timespec(INT_MAX, NS - 1)
    else AddNs(Timespec(now.sec + timeout / NS, now.nsec), timeout % NS)
  }

  /** The deadline is normalised; it equals now plus the timeout exactly when it does not saturate, and a
      saturated deadline is early, never late. */
  lemma DeadlineExact(now: Timespec, timeout: I64)
    requires Normal(now) && now.sec >= 0 && timeout >= 0
    ensures Normal(Deadline(now, timeout))
    ensures Ns(Deadline(now, timeout)) == Ns(now) + timeout <==> !Saturates(now, timeout)
    ensures Ns(Deadline(now, timeout)) <= Ns(now) + timeout
  {
    var q := timeout / NS;
    assert timeout == q * NS + timeout % NS;
    if Saturates(now, timeout) {
      assert now.sec + q >= INT_MAX + 1;
      assert Ns(now) + timeout >= (now.sec + q) * NS;
    }
  }

  /** Three-way comparison of times, as the broker makes it. */
  function Compare(a: Timespec, b: Timespec): (r: int)
    ensures Normal(a) && Normal(b) ==> (r < 0 <==> Ns(a) < Ns(b)) && (r == 0 <==> Ns(a) == Ns(b))
  {
    if a.sec != b.sec then (if a.sec < b.sec then -1 else 1)
    else if a.nsec == b.nsec then 0
    else if a.nsec < b.nsec then -1 else 1
  }

  predicate Expired(clock: Timespec, deadline: Option<Timespec>) {
    deadline.Some? && Compare(clock, deadline.value) >= 0
  }

  /** When a sleeping waiter wakes up by itself. */
  function SleepUntil(now: Timespec, deadline: Option<Timespec>): Timespec {
    var poll := AddNs(now, POLL_NS);
    if deadline.Some? && Compare(deadline.value, poll) < 0 then deadline.value else poll
  }

  /** Each sleep targets the earlier of 250 ms from now and the deadline. */
  lemma SleepTarget(now: Timespec, deadline: Option<Timespec>)
    requires Normal(now) && (deadline.Some? ==> Normal(deadline.value))
    ensures Normal(SleepUntil(now, deadline))
    ensures Ns(SleepUntil(now, deadline)) == if deadline.Some? && Ns(deadline.value) < Ns(now) + POLL_NS then Ns(deadline.value)
                                             else Ns(now) + POLL_NS
  {
  }

  /** A pair accepted at the boundary expires exactly when that much time has passed since it was queued, or, if that
      time cannot be represented, at the latest representable time. */
  lemma TimeoutExact(seconds: I64, nanoseconds: I64, start: Timespec, clock: Timespec)
    requires Normal(start) && start.sec >= 0 && Normal(clock) && Pack(seconds, nanoseconds).Accepted?
    ensures Expired(clock, Some(Deadline(start, Pack(seconds, nanoseconds).ns))) <==>
            if Saturates(start, Pack(seconds, nanoseconds).ns) then Ns(clock) >= INT_MAX * NS + NS - 1
            else Ns(clock) - Ns(start) >= seconds * NS + nanoseconds
    ensures Saturates(start, Pack(seconds, nanoseconds).ns) <==> start.sec + seconds > INT_MAX
  {
    PackExact(seconds, nanoseconds);
    DeadlineExact(start, Pack(seconds, nanoseconds).ns);
  }
}

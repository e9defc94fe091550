/** The DTLS retransmission timer (d1_lib.cc): arming, doubling, expiry and the limit on timeouts. */
module RetransmitTimer {
  import opened Bits

  /** DTLS1_MTU_TIMEOUTS and DTLS1_MAX_TIMEOUTS */
  const MTU_TIMEOUTS: nat := 2
  const MAX_TIMEOUTS: nat := 12

  const MAX_DURATION: nat := 60000
  const MIN_MTU: nat := 256 - 28
  const INT_MAX: nat := 0x7fff_ffff
  const WORD: nat := 0x1_0000_0000

  /** OPENSSL_timeval */
  datatype Timeval = Timeval(sec: nat, usec: nat) {
    predicate Normal() {
      usec < 1000000
    }

    function Micros(): nat {
      sec * 1000000 + usec
    }
  }

  const ZERO := Timeval(0, 0)

  datatype Left = NotRunning | Left(time: Timeval)

  datatype Outcome = NothingToDo | GiveUp | Retransmit

  /** The timer fields of DTLS1_STATE, and the initial duration of the connection. */
  datatype State = State(next: Timeval, duration: nat, numTimeouts: nat, initial: nat) {

    predicate Valid() {
      next.Normal() && duration < WORD && initial < WORD && numTimeouts < WORD
    }

    /** dtls1_start_timer */
    function Start(now: Timeval): State {
      var d := if next == ZERO then initial else duration;
      var usec := now.usec + d % 1000 * 1000;
      State(if usec >= 1000000 then Timeval(now.sec + d / 1000 + 1, usec - 1000000) else Timeval(now.sec + d / 1000, usec),
            d, numTimeouts, initial)
    }

    /** dtls1_stop_timer */
    function Stop(): State {
      State(ZERO, initial, 0, initial)
    }

    /** dtls1_double_timeout; the duration is an unsigned 32-bit number. */
    function Double(): State {
      this.(duration := Doubled(duration))
    }

    /** dtls1_check_timeout_num; the count is an unsigned 32-bit number. */
    function Count(): (State, bool) {
      var n := (numTimeouts + 1) % WORD;
      (this.(numTimeouts := n), n <= MAX_TIMEOUTS)
    }

    /** DTLSv1_get_timeout */
    function GetTimeout(now: Timeval): Left
      requires now.Normal()
    {
      if next == ZERO then NotRunning
      else if next.sec < now.sec || (next.sec == now.sec && next.usec <= now.usec) then Left(ZERO)
      else
        var left := if next.usec >= now.usec then Timeval(next.sec - now.sec, next.usec - now.usec)
                    else Timeval(next.sec - now.sec - 1, 1000000 + next.usec - now.usec);
        var rounded := if left.sec == 0 && left.usec < 15000 then ZERO else left;
        Left(if rounded.sec > INT_MAX then rounded.(sec := INT_MAX) else rounded)
    }

    /** dtls1_is_timer_expired */
    predicate Expired(now: Timeval)
      requires now.Normal()
    {
      GetTimeout(now) == Left(ZERO)
    }

    /** DTLSv1_handle_timeout, up to the retransmission */
    function HandleTimeout(now: Timeval): (State, Outcome)
      requires now.Normal()
    {
      if !Expired(now) then (this, NothingToDo)
      else
        var (s, ok) := Count();
        if ok then (s.Double().Start(now), Retransmit) else (s, GiveUp)
    }
  }

  function Doubled(d: nat): nat {
    var twice := d * 2 % WORD;
    if twice > MAX_DURATION then MAX_DURATION else twice
  }

  function Min(a: nat, b: nat): nat {
    if a <= b then a else b
  }

  /** The timer is set to exactly the duration from now, in normal form; a duration is kept while the timer runs. */
  lemma StartSets(s: State, now: Timeval)
    requires s.Valid() && now.Normal()
    ensures var s' := s.Start(now);
            && s'.Valid()
            && s'.next.Micros() == now.Micros() + 1000 * s'.duration
            && s'.duration == (if s.next == ZERO then s.initial else s.duration)
            && s'.initial == s.initial && s'.numTimeouts == s.numTimeouts
            && (s'.duration > 0 ==> s'.next != ZERO)
  {
  }

  /** What get_timeout answers: the exact time left, but nothing when less than 15 ms or past, and no more than INT_MAX seconds. */
  lemma GetTimeoutExact(s: State, now: Timeval)
    requires s.Valid() && now.Normal() && s.next != ZERO
    ensures var left := s.next.Micros() - now.Micros();
            if left < 15000 then s.GetTimeout(now) == Left(ZERO)
            else
              && s.GetTimeout(now).Left? && s.GetTimeout(now).time.Normal()
              && if left / 1000000 > INT_MAX then s.GetTimeout(now).time.sec == INT_MAX
                 else s.GetTimeout(now).time.Micros() == left
  {
  }

  /** A stopped timer is not running and never expires, and starts anew with its first duration and no timeout counted. */
  lemma StoppedExactly(s: State, now: Timeval)
    requires s.Valid() && now.Normal()
    ensures s.Stop().GetTimeout(now) == NotRunning && s.Stop().HandleTimeout(now) == (s.Stop(), NothingToDo)
    ensures s.Stop().Start(now).next.Micros() == now.Micros() + 1000 * s.initial
    ensures s.Stop().Start(now).numTimeouts == 0
  {
    StartSets(s.Stop(), now);
  }

  /** A timer expires exactly when it is running with less than 15 ms left. */
  lemma ExpiredExactly(s: State, now: Timeval)
    requires s.Valid() && now.Normal()
    ensures s.GetTimeout(now).NotRunning? <==> s.next == ZERO
    ensures s.Expired(now) <==> s.next != ZERO && s.next.Micros() < now.Micros() + 15000
  {
    if s.next != ZERO {
      GetTimeoutExact(s, now);
    }
  }

  /**
    * What a call to handle_timeout does: nothing before the timer expires, and then a retransmission, with twice the time
    * to the next up to the cap, unless the count of timeouts is beyond the limit; in that case it gives up.
    */
  lemma HandledExactly(s: State, now: Timeval)
    requires s.Valid() && now.Normal()
    ensures var (s', outcome) := s.HandleTimeout(now);
            && (outcome == NothingToDo <==> s.next == ZERO || now.Micros() + 15000 <= s.next.Micros())
            && (outcome == NothingToDo ==> s' == s)
            && (outcome != NothingToDo ==> s'.numTimeouts == (s.numTimeouts + 1) % WORD && s'.initial == s.initial)
            && (outcome == GiveUp ==> s'.numTimeouts > MAX_TIMEOUTS && s'.next == s.next && s'.duration == s.duration)
            && (outcome == Retransmit ==>
                  && s'.numTimeouts <= MAX_TIMEOUTS && s'.duration == Doubled(s.duration)
                  && s'.next.Micros() == now.Micros() + 1000 * s'.duration)
  {
    hide State.Start, State.GetTimeout;
    ExpiredExactly(s, now);
    StartSets(s.Count().0.Double(), now);
  }

  /** Doubling is capped at one minute, exactly unless the product wraps to something below the cap. */
  lemma DoubledIsCapped(d: nat)
    requires d < WORD
    ensures Doubled(d) == Min(2 * d, MAX_DURATION) <==> !(0x8000_0000 <= d < 0x8000_0000 + MAX_DURATION / 2)
  {
  }

  /** Each of `nows` is a moment when the timer, as the ones before left it, has expired. */
  predicate AllExpired(s: State, nows: seq<Timeval>)
    requires forall t <- nows :: t.Normal()
    decreases |nows|
  {
    nows == [] || (s.Expired(nows[0]) && AllExpired(s.HandleTimeout(nows[0]).0, nows[1..]))
  }

  function AfterTimeouts(s: State, nows: seq<Timeval>): State
    requires forall t <- nows :: t.Normal()
  {
    if nows == [] then s else AfterTimeouts(s, nows[..|nows| - 1]).HandleTimeout(nows[|nows| - 1]).0
  }

  lemma {:induction false} AllExpiredPrefix(s: State, nows: seq<Timeval>, n: nat)
    requires (forall t <- nows :: t.Normal()) && AllExpired(s, nows) && n < |nows|
    ensures AllExpired(s, nows[..n]) && AfterTimeouts(s, nows[..n]).Expired(nows[n])
    decreases n
  {
    if n > 0 {
      var s1 := s.HandleTimeout(nows[0]).0;
      AllExpiredPrefix(s1, nows[1..], n - 1);
      assert nows[1..][..n - 1] == nows[..n][1..];
      AfterFirst(s, nows[..n]);
    }
  }

  lemma {:induction false} AfterFirst(s: State, nows: seq<Timeval>)
    requires nows != [] && forall t <- nows :: t.Normal()
    ensures AfterTimeouts(s, nows) == AfterTimeouts(s.HandleTimeout(nows[0]).0, nows[1..])
  {
    hide State.HandleTimeout;
    if |nows| > 1 {
      AfterFirst(s, nows[..|nows| - 1]);
      assert nows[..|nows| - 1][1..] == nows[1..][..|nows| - 2];
    } else {
      assert nows[..0] == [] && nows[1..] == [];
    }
  }

  /** A stopped timer started at `start` */
  function Armed(initial: nat, start: Timeval): State {
    State(ZERO, initial, 0, initial).Start(start)
  }

  /**
    * After k consecutive timeouts since the timer was started, k being at most 12, the duration is the initial one
    * doubled k times but at most a minute, and the timer is armed with it from the last timeout on.
    */
  lemma {:induction false} Backoff(initial: nat, start: Timeval, nows: seq<Timeval>)
    requires 1 <= initial <= MAX_DURATION && start.Normal() && forall t <- nows :: t.Normal()
    requires AllExpired(Armed(initial, start), nows) && |nows| <= MAX_TIMEOUTS
    ensures var s := AfterTimeouts(Armed(initial, start), nows);
            && s.Valid() && s.next != ZERO && s.initial == initial
            && s.numTimeouts == |nows|
            && 1 <= s.duration == Min(initial * Pow2(|nows|), MAX_DURATION) <= MAX_DURATION
            && s.next.Micros() == (if nows == [] then start else nows[|nows| - 1]).Micros() + 1000 * s.duration
  {
    hide State.HandleTimeout, State.Start, State.Expired, Min, AllExpired;
    var s0 := Armed(initial, start);
    if nows == [] {
      StartSets(State(ZERO, initial, 0, initial), start);
      assert Min(initial * Pow2(0), MAX_DURATION) == initial by { SmallestIsItself(initial); }
    } else {
      var k := |nows| - 1;
      AllExpiredPrefix(s0, nows, k);
      Backoff(initial, start, nows[..k]);
      TimeoutStep(AfterTimeouts(s0, nows[..k]), nows[k]);
      CapStep(initial, Pow2(k));
    }
  }

  lemma SmallestIsItself(d: nat)
    requires d <= MAX_DURATION
    ensures Min(d * Pow2(0), MAX_DURATION) == d
  {
  }

  /** A timeout before the limit counts itself, doubles the duration and arms the timer again. */
  lemma TimeoutStep(s: State, now: Timeval)
    requires s.Valid() && now.Normal() && s.Expired(now)
    requires s.numTimeouts < MAX_TIMEOUTS && 1 <= s.duration <= MAX_DURATION
    ensures s.HandleTimeout(now).1 == Retransmit
    ensures var s' := s.HandleTimeout(now).0;
            && s'.Valid() && s'.next != ZERO && s'.initial == s.initial
            && s'.numTimeouts == s.numTimeouts + 1
            && s'.duration == Min(2 * s.duration, MAX_DURATION) >= 1
            && s'.next.Micros() == now.Micros() + 1000 * s'.duration
  {
    hide State.Start;
    DoubledIsCapped(s.duration);
    StartSets(s.Count().0.Double(), now);
  }

  lemma CapStep(initial: nat, p: nat)
    requires p > 0
    ensures Min(2 * Min(initial * p, MAX_DURATION), MAX_DURATION) == Min(initial * (2 * p), MAX_DURATION) <= MAX_DURATION
  {
    assert initial * (2 * p) == 2 * (initial * p);
  }

  /** The k-th check since the timer was stopped succeeds exactly when k, as a 32-bit count, is at most 12. */
  lemma {:induction false} ChecksSinceStop(s: State, k: nat)
    requires k > 0
    ensures Counted(s.Stop(), k - 1).Count().1 <==> k % WORD <= MAX_TIMEOUTS
    ensures Counted(s.Stop(), k).numTimeouts == k % WORD
  {
    if k > 1 {
      ChecksSinceStop(s, k - 1);
    }
  }

  /** The timer after k checks */
  function Counted(s: State, k: nat): State {
    if k == 0 then s else Counted(s, k - 1).Count().0
  }

  /** The timer as the source updates it, with the MTU that a run of timeouts lowers. */
  class Timer {
    var next: Timeval
    var duration: nat
    var numTimeouts: nat
    var initial: nat
    var mtu: nat
    var noQueryMtu: bool

    ghost function Value(): State
      reads this
    {
      State(next, duration, numTimeouts, initial)
    }

    constructor (initial: nat)
      ensures Value() == State(ZERO, 0, 0, initial)
    {
      next, duration, numTimeouts, this.initial, mtu, noQueryMtu := ZERO, 0, 0, initial, 0, false;
    }

    method Start(now: Timeval)
      modifies this`next, this`duration
      ensures Value() == old(Value()).Start(now)
    {
      if next.sec == 0 && next.usec == 0 {
        duration := initial;
      }
      next := now;
      next := next.(sec := next.sec + duration / 1000);
      next := next.(usec := next.usec + duration % 1000 * 1000);
      if next.usec >= 1000000 {
        next := next.(sec := next.sec + 1);
        next := next.(usec := next.usec - 1000000);
      }
    }

    method Double()
      modifies this`duration
      ensures Value() == old(Value()).Double()
    {
      duration := duration * 2 % WORD;
      if duration > MAX_DURATION {
        duration := MAX_DURATION;
      }
    }

    method Stop()
      modifies this`next, this`duration, this`numTimeouts
      ensures Value() == old(Value()).Stop()
    {
      numTimeouts := 0;
      next := ZERO;
      duration := initial;
    }

    /** dtls1_check_timeout_num; `fallback` is the answer of the transport to the query for a fallback MTU. */
    method CheckTimeoutNum(fallback: int) returns (ok: bool)
      modifies this`numTimeouts, this`mtu
      ensures (Value(), ok) == old(Value()).Count()
      ensures mtu == if numTimeouts > MTU_TIMEOUTS && !noQueryMtu && MIN_MTU <= fallback <= 0x4000_0000
                     then fallback else old(mtu)
    {
      numTimeouts := (numTimeouts + 1) % WORD;
      if numTimeouts > MTU_TIMEOUTS && !noQueryMtu {
        if fallback >= 0 && fallback <= 0x4000_0000 && fallback >= MIN_MTU {
          mtu := fallback;
        }
      }
      if numTimeouts > MAX_TIMEOUTS {
        return false;
      }
      ok := true;
    }

    method GetTimeout(now: Timeval) returns (left: Left)
      requires now.Normal()
      ensures left == Value().GetTimeout(now)
    {
      if next.sec == 0 && next.usec == 0 {
        return NotRunning;
      }
      if next.sec < now.sec || (next.sec == now.sec && next.usec <= now.usec) {
        return Left(ZERO);
      }
      var sec, usec := next.sec - now.sec, 0;
      if next.usec >= now.usec {
        usec := next.usec - now.usec;
      } else {
        usec := 1000000 + next.usec - now.usec;
        sec := sec - 1;
      }
      if sec == 0 && usec < 15000 {
        sec, usec := 0, 0;
      }
      if sec > INT_MAX {
        sec := INT_MAX;
      }
      left := Left(Timeval(sec, usec));
    }

    /** DTLSv1_handle_timeout, up to the retransmission */
    method HandleTimeout(now: Timeval, fallback: int) returns (outcome: Outcome)
      requires now.Normal()
      modifies this`next, this`duration, this`numTimeouts, this`mtu
      ensures (Value(), outcome) == old(Value()).HandleTimeout(now)
      ensures mtu == if outcome != NothingToDo && numTimeouts > MTU_TIMEOUTS && !noQueryMtu && MIN_MTU <= fallback <= 0x4000_0000
                     then fallback else old(mtu)
    {
      var left := GetTimeout(now);
      if left.NotRunning? || left.time.sec > 0 || left.time.usec > 0 {
        return NothingToDo;
      }
      var ok := CheckTimeoutNum(fallback);
      if !ok {
        return GiveUp;
      }
      Double();
      Start(now);
      outcome := Retransmit;
    }
  }
}

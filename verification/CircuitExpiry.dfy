/** circuit_expire_building of src/or/circuituse.c: what a sweep does to each circuit, and what
    any number of sweeps can do. */
module CircuitExpiry {

  // ---------------------------------------------------------------------------------------------
  // Times.

  /** struct timeval */
  datatype TimeVal = TimeVal(sec: int, usec: int)

  predicate Normal(t: TimeVal) {
    0 <= t.usec < 1_000_000
  }

  function Micros(t: TimeVal): int {
    t.sec * 1_000_000 + t.usec
  }

  /** timercmp(a, b, >) */
  predicate Later(a: TimeVal, b: TimeVal) {
    if a.sec == b.sec then a.usec > b.usec else a.sec > b.sec
  }

  /** timersub */
  function Minus(a: TimeVal, b: TimeVal): TimeVal {
    if a.usec < b.usec then TimeVal(a.sec - b.sec - 1, a.usec - b.usec + 1_000_000)
    else TimeVal(a.sec - b.sec, a.usec - b.usec)
  }

  /** tor_lround on a non-negative number. */
  function Lround(x: real): nat
    requires x >= 0.0
  {
    (x + 0.5).Floor
  }

  /** SET_CUTOFF */
  function Cutoff(now: TimeVal, msec: real): TimeVal
    requires msec >= 0.0
  {
    var ms := Lround(msec);
    Minus(now, TimeVal(ms / 1000, ms % 1000 * 1000))
  }

  lemma CutoffIs(now: TimeVal, msec: real)
    requires Normal(now) && msec >= 0.0
    ensures Normal(Cutoff(now, msec)) && Micros(Cutoff(now, msec)) == Micros(now) - 1000 * Lround(msec)
  {
  }

  lemma LaterIs(a: TimeVal, b: TimeVal)
    requires Normal(a) && Normal(b)
    ensures Later(a, b) <==> Micros(a) > Micros(b)
  {
  }

  datatype Cutoffs = Cutoffs(general: TimeVal, begindir: TimeVal, fourhop: TimeVal, cannibalize: TimeVal,
                             close: TimeVal, extremelyOld: TimeVal, hsExtremelyOld: TimeVal)

  function Max(a: real, b: real): real {
    if a > b then a else b
  }

  /** The cutoffs of one sweep. */
  function CutoffsAt(now: TimeVal, timeoutMs: real, closeMs: real, socksTimeout: nat): Cutoffs
    requires timeoutMs >= 0.0 && closeMs >= 0.0
  {
    Cutoffs(Cutoff(now, timeoutMs), Cutoff(now, timeoutMs),
            Cutoff(now, timeoutMs * (4.0 / 3.0)), Cutoff(now, timeoutMs / 2.0),
            Cutoff(now, closeMs), Cutoff(now, closeMs * 2.0 + 1000.0),
            Cutoff(now, Max(closeMs * 2.0 + 1000.0, socksTimeout as real * 1000.0)))
  }

  predicate NotLater(t: TimeVal, cut: Cutoffs) {
    && !Later(t, cut.general) && !Later(t, cut.begindir) && !Later(t, cut.fourhop) && !Later(t, cut.cannibalize)
    && !Later(t, cut.close) && !Later(t, cut.hsExtremelyOld)
  }

  lemma LroundMonotone(x: real, y: real)
    requires 0.0 <= x <= y
    ensures Lround(x) <= Lround(y)
  {
  }

  lemma CutoffMonotone(now: TimeVal, x: real, y: real, t: TimeVal)
    requires Normal(now) && Normal(t) && 0.0 <= x <= y
    ensures !Later(t, Cutoff(now, y)) ==> !Later(t, Cutoff(now, x))
  {
    hide Later, Cutoff, Lround;
    LroundMonotone(x, y);
    CutoffIs(now, x);
    CutoffIs(now, y);
    LaterIs(t, Cutoff(now, x));
    LaterIs(t, Cutoff(now, y));
  }

  /** As long as a timeout is not set beyond the time to close, the cutoff for circuits that
      have been spared is the oldest. */
  lemma OldestCutoff(now: TimeVal, timeoutMs: real, closeMs: real, socksTimeout: nat, t: TimeVal)
    requires Normal(now) && Normal(t) && 0.0 <= timeoutMs <= closeMs
    requires !Later(t, CutoffsAt(now, timeoutMs, closeMs, socksTimeout).hsExtremelyOld)
    ensures NotLater(t, CutoffsAt(now, timeoutMs, closeMs, socksTimeout))
    ensures !Later(t, CutoffsAt(now, timeoutMs, closeMs, socksTimeout).extremelyOld)
  {
    hide Later, Cutoff, Max;
    MaxIs(closeMs * 2.0 + 1000.0, socksTimeout as real * 1000.0);
    var most := Max(closeMs * 2.0 + 1000.0, socksTimeout as real * 1000.0);
    CutoffMonotone(now, timeoutMs, most, t);
    CutoffMonotone(now, timeoutMs * (4.0 / 3.0), most, t);
    CutoffMonotone(now, timeoutMs / 2.0, most, t);
    CutoffMonotone(now, closeMs, most, t);
    CutoffMonotone(now, closeMs * 2.0 + 1000.0, most, t);
  }

  lemma MaxIs(a: real, b: real)
    ensures Max(a, b) >= a && Max(a, b) >= b
  {
  }

  // ---------------------------------------------------------------------------------------------
  // Circuits.

  const OR_MAX: nat := 4
  const C_INTRODUCING: nat := 6
  const C_INTRODUCE_ACK_WAIT: nat := 7
  const C_ESTABLISH_REND: nat := 9
  const C_REND_READY: nat := 10
  const C_REND_READY_INTRO_ACKED: nat := 11
  const C_MEASURE_TIMEOUT: nat := 13
  const S_ESTABLISH_INTRO: nat := 14
  const S_CONNECT_REND: nat := 16

  /** cpath_build_state_t, which a circuit need not have. */
  datatype Build = NoBuild | Build(onehopTunnel: bool, desiredPathLen: int, hasPendingFinalCpath: bool)

  /** What a sweep reads of a circuit. */
  datatype Fields = Fields(purpose: nat, open: bool, marked: bool, created: TimeVal, dirty: int, build: Build,
                           hasOpened: bool, hsTimedOut: bool, hasRendData: bool, hasStreams: bool, firstHopOpen: bool)

  /** The fields that circuits with a REND_READY purpose are dereferenced for are there. */
  predicate Sane(c: Fields) {
    c.purpose == C_REND_READY ==> c.build.Build?
  }

  predicate IsOrigin(c: Fields) {
    c.purpose > OR_MAX
  }

  datatype Options = Options(closeHSClientImmediately: bool, closeHSServiceRendImmediately: bool)

  function CutoffFor(c: Fields, cut: Cutoffs): TimeVal {
    if c.hsTimedOut then cut.hsExtremelyOld
    else if c.build.Build? && c.build.onehopTunnel then cut.begindir
    else if c.build.Build? && c.build.desiredPathLen == 4 && !c.hasOpened then cut.fourhop
    else if c.hasOpened then cut.cannibalize
    else if c.purpose == C_MEASURE_TIMEOUT then cut.close
    else cut.general
  }

  /** Open circuits that have waited too long for an introduction or a rendezvous. */
  predicate StaleOpen(c: Fields, cutoff: TimeVal) {
    || c.purpose in {C_ESTABLISH_REND, C_INTRODUCING, S_ESTABLISH_INTRO}
    || (c.purpose == C_REND_READY && !c.hasRendData && c.dirty <= cutoff.sec)
    || (c.purpose in {C_REND_READY_INTRO_ACKED, C_INTRODUCE_ACK_WAIT} && c.dirty <= cutoff.sec)
  }

  /** Hidden-service circuits that are spared once. */
  predicate Sparable(c: Fields, options: Options)
    requires Sane(c)
  {
    !c.hsTimedOut &&
    (|| (!options.closeHSClientImmediately
         && (c.purpose in {C_INTRODUCE_ACK_WAIT, C_REND_READY_INTRO_ACKED}
             || (c.purpose == C_REND_READY && c.build.hasPendingFinalCpath)))
     || (!options.closeHSServiceRendImmediately && c.purpose == S_CONNECT_REND))
  }

  /** What a sweep did to a circuit; `counted` tells whether the build-time statistics were told
      of a close. */
  datatype Outcome = Untouched | CountedTimeout | Spared | Closed(measured: bool, counted: bool)

  /** The effect of one sweep; `count` is what the two questions about build times answer. */
  function Outcomes(c: Fields, cut: Cutoffs, options: Options, count: bool): Outcome
    requires Sane(c)
  {
    var cutoff := CutoffFor(c, cut);
    if !IsOrigin(c) || c.marked || Later(c.created, cutoff) then Untouched
    else if c.open then
      if !StaleOpen(c, cutoff) then Untouched
      else if Sparable(c, options) then Spared
      else Closed(c.purpose == C_MEASURE_TIMEOUT, false)
    else if c.hasStreams then Untouched
    else if count && c.purpose != C_MEASURE_TIMEOUT then CountedTimeout
    else if Sparable(c, options) then Spared
    else Closed(c.purpose == C_MEASURE_TIMEOUT, count && !Later(cut.extremelyOld, c.created))
  }

  function After(c: Fields, o: Outcome): Fields {
    match o
    case Untouched => c
    case CountedTimeout => c.(purpose := C_MEASURE_TIMEOUT)
    case Spared => c.(hsTimedOut := true)
    case Closed(_, _) => c.(marked := true)
  }

  // ---------------------------------------------------------------------------------------------
  // The same in times: how old a circuit may get, and what becomes of it then.

  /** The age of a circuit in microseconds. */
  function Age(c: Fields, now: TimeVal): int {
    Micros(now) - Micros(c.created)
  }

  /** tor_lround takes the nearest whole number, the higher one of two. */
  lemma LroundIsNearest(x: real)
    requires x >= 0.0
    ensures Lround(x) as real - 0.5 <= x < Lround(x) as real + 0.5
  {
  }

  /** A circuit of ours that nobody has closed. */
  predicate Ours(c: Fields) {
    c.purpose > 4 && !c.marked
  }

  /** An open circuit that still waits for an introduction or a rendezvous: while establishing one,
      or with no attempt for that many milliseconds. */
  predicate Waits(c: Fields, now: TimeVal, ms: real)
    requires ms >= 0.0
  {
    || c.purpose in {6, 9, 14}
    || (c.dirty * 1_000_000 <= Micros(now) - 1000 * Lround(ms)
        && (c.purpose in {7, 11} || (c.purpose == 10 && !c.hasRendData)))
  }

  /** The sweep leaves the circuit alone until it is so many milliseconds old, and then unless it is
      open and does not wait, or is being built and carries streams. */
  predicate Lasts(c: Fields, now: TimeVal, ms: real, o: Outcome)
    requires ms >= 0.0
  {
    o.Untouched? <==>
      || !Ours(c) || Age(c, now) < 1000 * Lround(ms)
      || (if c.open then !Waits(c, now, ms) else c.hasStreams)
  }

  lemma LastsByCutoff(c: Fields, now: TimeVal, ms: real, cut: Cutoffs, options: Options, count: bool)
    requires Sane(c) && Normal(now) && Normal(c.created) && ms >= 0.0 && CutoffFor(c, cut) == Cutoff(now, ms)
    ensures Lasts(c, now, ms, Outcomes(c, cut, options, count))
  {
    hide CutoffFor, Cutoff, Later, Lround;
    CutoffIs(now, ms);
    LaterIs(c.created, Cutoff(now, ms));
    var cutoff := Cutoff(now, ms);
    assert c.dirty <= cutoff.sec <==> c.dirty * 1_000_000 <= Micros(cutoff);
  }

  /** How long circuits last, with the timeouts of the sweep in milliseconds. */
  lemma HowLong(c: Fields, now: TimeVal, timeoutMs: real, closeMs: real, socksTimeout: nat, options: Options,
           count: bool)
    requires Sane(c) && Normal(now) && Normal(c.created) && timeoutMs >= 0.0 && closeMs >= 0.0
    ensures var o := Outcomes(c, CutoffsAt(now, timeoutMs, closeMs, socksTimeout), options, count);
            var oneHop := c.build.Build? && c.build.onehopTunnel;
            var fourHops := c.build.Build? && c.build.desiredPathLen == 4;
            if c.hsTimedOut then
              // spared before
              var ms := closeMs * 2.0 + 1000.0;
              Lasts(c, now, if ms > socksTimeout as real * 1000.0 then ms else socksTimeout as real * 1000.0, o)
            else if oneHop then Lasts(c, now, timeoutMs, o)
            else if c.hasOpened then Lasts(c, now, timeoutMs / 2.0, o)
            else if fourHops then Lasts(c, now, timeoutMs * 4.0 / 3.0, o)
            else if c.purpose == 13 then Lasts(c, now, closeMs, o)
            else Lasts(c, now, timeoutMs, o)
  {
    hide Outcomes, Lasts, Lround;
    var cut := CutoffsAt(now, timeoutMs, closeMs, socksTimeout);
    var ms := closeMs * 2.0 + 1000.0;
    var ms' := socksTimeout as real * 1000.0;
    if c.hsTimedOut {
      LastsByCutoff(c, now, if ms > ms' then ms else ms', cut, options, count);
    } else if c.build.Build? && c.build.onehopTunnel {
      LastsByCutoff(c, now, timeoutMs, cut, options, count);
    } else if c.hasOpened {
      LastsByCutoff(c, now, timeoutMs / 2.0, cut, options, count);
    } else if c.build.Build? && c.build.desiredPathLen == 4 {
      assert timeoutMs * (4.0 / 3.0) == timeoutMs * 4.0 / 3.0;
      LastsByCutoff(c, now, timeoutMs * 4.0 / 3.0, cut, options, count);
    } else if c.purpose == 13 {
      LastsByCutoff(c, now, closeMs, cut, options, count);
    } else {
      LastsByCutoff(c, now, timeoutMs, cut, options, count);
    }
  }

  /** A circuit on its way to a hidden service, or of a service to its client, that an option does
      not forbid to spare once. */
  predicate MayBeSpared(c: Fields, options: Options) {
    && !c.hsTimedOut
    && (|| (!options.closeHSClientImmediately
            && (c.purpose in {7, 11} || (c.purpose == 10 && c.build.Build? && c.build.hasPendingFinalCpath)))
        || (!options.closeHSServiceRendImmediately && c.purpose == 16))
  }

  /** What becomes of a circuit that is not left alone: it is counted and kept for measuring, or
      spared, or closed, and a close is counted only if the clock cannot have jumped. */
  lemma WhatThen(c: Fields, now: TimeVal, timeoutMs: real, closeMs: real, socksTimeout: nat, options: Options,
           count: bool)
    requires Sane(c) && Normal(now) && Normal(c.created) && timeoutMs >= 0.0 && closeMs >= 0.0
    ensures var o := Outcomes(c, CutoffsAt(now, timeoutMs, closeMs, socksTimeout), options, count);
            !o.Untouched? ==>
            && (o.CountedTimeout? <==> !c.open && count && c.purpose != 13)
            && (o.Spared? <==> (c.open || !count || c.purpose == 13) && MayBeSpared(c, options))
            && (o.Closed? ==>
                  && (o.measured <==> c.purpose == 13)
                  && (o.counted <==> !c.open && count && Age(c, now) <= 1000 * Lround(closeMs * 2.0 + 1000.0)))
  {
    hide CutoffFor, Lround;
    var cut := CutoffsAt(now, timeoutMs, closeMs, socksTimeout);
    CutoffIs(now, closeMs * 2.0 + 1000.0);
    LaterIs(cut.extremelyOld, c.created);
  }

  /** What is left of a circuit after each outcome. */
  lemma WhatRemains(c: Fields, o: Outcome)
    ensures var d := After(c, o);
            && d.purpose == (if o.CountedTimeout? then 13 else c.purpose)
            && d.marked == (c.marked || o.Closed?) && d.hsTimedOut == (c.hsTimedOut || o.Spared?)
            && d == c.(purpose := d.purpose, marked := d.marked, hsTimedOut := d.hsTimedOut)
  {
  }

  // ---------------------------------------------------------------------------------------------
  // The sweep itself.

  class Circuit {
    var purpose: nat
    var open: bool
    var marked: bool
    var created: TimeVal
    var dirty: int
    var build: Build
    var hasOpened: bool
    var hsTimedOut: bool
    var hasRendData: bool
    var hasStreams: bool
    var firstHopOpen: bool
    var next: Circuit?

    /** The circuit as a value. */
    function Value(): Fields
      reads this
    {
      Fields(purpose, open, marked, created, dirty, build, hasOpened, hsTimedOut, hasRendData, hasStreams, firstHopOpen)
    }

    /** circuit_change_purpose */
    method ChangePurpose(newPurpose: nat)
      requires (purpose > OR_MAX) == (newPurpose > OR_MAX)
      modifies `purpose
      ensures purpose == newPurpose
    {
      if purpose == newPurpose {
        return;
      }
      purpose := newPurpose;
    }

    /** circuituse.c:393-407. */
    method ChooseCutoff(cut: Cutoffs) returns (cutoff: TimeVal)
      ensures cutoff == CutoffFor(Value(), cut)
    {
      if build.Build? && build.onehopTunnel {
        cutoff := cut.begindir;
      } else if build.Build? && build.desiredPathLen == 4 && !hasOpened {
        cutoff := cut.fourhop;
      } else if hasOpened {
        cutoff := cut.cannibalize;
      } else if purpose == C_MEASURE_TIMEOUT {
        cutoff := cut.close;
      } else {
        cutoff := cut.general;
      }
      if hsTimedOut {
        cutoff := cut.hsExtremelyOld;
      }
    }

    /** The body of the loop of circuit_expire_building, for one victim. */
    method Expire(cut: Cutoffs, options: Options, count: bool) returns (o: Outcome)
      requires Sane(Value())
      modifies `purpose, `hsTimedOut, `marked
      ensures o == Outcomes(old(Value()), cut, options, count) && Value() == After(old(Value()), o)
    {
      hide CutoffFor, Later;
      if !(purpose > OR_MAX) || marked {
        return Untouched;
      }
      var cutoff := ChooseCutoff(cut);
      if Later(created, cutoff) {
        return Untouched;
      }
      var counted := false;
      if open {
        if purpose == C_ESTABLISH_REND || purpose == C_INTRODUCING || purpose == S_ESTABLISH_INTRO {
        } else if purpose == C_REND_READY {
          if hasRendData || dirty > cutoff.sec {
            return Untouched;
          }
        } else if purpose == C_REND_READY_INTRO_ACKED || purpose == C_INTRODUCE_ACK_WAIT {
          if dirty > cutoff.sec {
            return Untouched;
          }
        } else {
          return Untouched;
        }
      } else {
        if hasStreams {
          return Untouched;
        }
        if count {
          if purpose != C_MEASURE_TIMEOUT {
            ChangePurpose(C_MEASURE_TIMEOUT);
            return CountedTimeout;
          }
          if !Later(cut.extremelyOld, created) {
            counted := true;
          }
        }
      }
      if !options.closeHSClientImmediately && !hsTimedOut {
        if (purpose == C_REND_READY && build.hasPendingFinalCpath) || purpose == C_INTRODUCE_ACK_WAIT
           || purpose == C_REND_READY_INTRO_ACKED {
          hsTimedOut := true;
          return Spared;
        }
      }
      if !options.closeHSServiceRendImmediately && !hsTimedOut && purpose == S_CONNECT_REND {
        hsTimedOut := true;
        return Spared;
      }
      var measured := purpose == C_MEASURE_TIMEOUT;
      marked := true;
      return Closed(measured, counted);
    }
  }

  ghost predicate Listed(first: Circuit?, s: seq<Circuit>)
    reads s`next
  {
    && first == (if s == [] then null else s[0])
    && (forall i {:trigger s[i].next} | 0 <= i < |s| :: s[i].next == Follower(s, i))
    && (forall i, k | 0 <= i < k < |s| :: s[i] != s[k])
  }

  function Follower(s: seq<Circuit>, i: int): Circuit?
    requires 0 <= i < |s|
  {
    if i + 1 < |s| then s[i + 1] else null
  }

  /** circuit_expire_building: every circuit of the global list is treated once, and separately.
      answers[i] is what the build-time functions answer about circuit number i. */
  method Sweep(first: Circuit?, cut: Cutoffs, options: Options, answers: seq<bool>, ghost s: seq<Circuit>)
    returns (outcomes: seq<Outcome>)
    requires Listed(first, s) && |answers| == |s|
    requires forall c | c in s :: Sane(c.Value())
    modifies s`purpose, s`hsTimedOut, s`marked
    ensures |outcomes| == |s|
    ensures forall i | 0 <= i < |s| ::
              && outcomes[i] == Outcomes(old(s[i].Value()), cut, options, answers[i])
              && s[i].Value() == After(old(s[i].Value()), outcomes[i])
  {
    outcomes := [];
    var nextCirc := first;
    while nextCirc != null
      invariant |outcomes| <= |s| && nextCirc == (if |outcomes| < |s| then s[|outcomes|] else null)
      invariant forall i | 0 <= i < |outcomes| ::
                  && outcomes[i] == Outcomes(old(s[i].Value()), cut, options, answers[i])
                  && s[i].Value() == After(old(s[i].Value()), outcomes[i])
      invariant forall i | |outcomes| <= i < |s| :: s[i].Value() == old(s[i].Value())
      decreases |s| - |outcomes|
    {
      hide Outcomes, After, Sane;
      var victim := nextCirc;
      nextCirc := nextCirc.next;
      ghost var n := |outcomes|;
      assert s[n] == victim && forall i | 0 <= i < |s| && i != n :: s[i] != victim;
      var o := victim.Expire(cut, options, answers[|outcomes|]);
      outcomes := outcomes + [o];
    }
  }

  // ---------------------------------------------------------------------------------------------
  // Whole runs.

  /** Something that happens to a circuit: a sweep, or a change by other code to these fields. */
  datatype Event = Swept(cut: Cutoffs, options: Options, count: bool) | Changed(to: Fields)

  /** Other code may change everything but the purpose, and does not take back a close. */
  predicate Allowed(c: Fields, e: Event) {
    && Sane(c)
    && (e.Changed? ==> e.to.purpose == c.purpose && (c.marked ==> e.to.marked))
  }

  function Step(c: Fields, e: Event): Fields
    requires Allowed(c, e)
  {
    match e
    case Swept(cut, options, count) => After(c, Outcomes(c, cut, options, count))
    case Changed(to) => to
  }

  function OutcomeOf(c: Fields, e: Event): Outcome
    requires Allowed(c, e)
  {
    if e.Swept? then Outcomes(c, e.cut, e.options, e.count) else Untouched
  }

  predicate IsRun(c: Fields, run: seq<Event>)
    decreases |run|
  {
    run == [] || (Allowed(c, run[0]) && IsRun(Step(c, run[0]), run[1..]))
  }

  /** How often the circuit is counted as timed out in a run. */
  function Timeouts(c: Fields, run: seq<Event>): nat
    requires IsRun(c, run)
    decreases |run|
  {
    if run == [] then 0
    else (if OutcomeOf(c, run[0]).CountedTimeout? then 1 else 0) + Timeouts(Step(c, run[0]), run[1..])
  }

  function IsCountedClose(o: Outcome): bool {
    o.Closed? && o.counted
  }

  /** How often it is counted as closed. */
  function Closes(c: Fields, run: seq<Event>): nat
    requires IsRun(c, run)
    decreases |run|
  {
    if run == [] then 0
    else (if IsCountedClose(OutcomeOf(c, run[0])) then 1 else 0) + Closes(Step(c, run[0]), run[1..])
  }

  /** A circuit is counted at most once as timed out and at most once as closed, and as closed
      only after it has been counted as timed out or if it was made for measuring. */
  lemma {:induction false} CountedOnce(c: Fields, run: seq<Event>)
    requires IsRun(c, run)
    ensures Timeouts(c, run) <= if c.purpose == C_MEASURE_TIMEOUT || c.marked then 0 else 1
    ensures Closes(c, run) <= if c.marked then 0 else 1
    ensures c.purpose != C_MEASURE_TIMEOUT ==> Closes(c, run) <= Timeouts(c, run)
    decreases |run|
  {
    if run != [] {
      CountedOnce(Step(c, run[0]), run[1..]);
    }
  }

  /** How many sweeps a circuit can still survive when it is old enough. */
  function Rank(c: Fields): nat {
    if c.purpose == C_MEASURE_TIMEOUT then 0 else if c.hsTimedOut then 1 else 2
  }

  /** A circuit of ours that never got open and carries no streams. */
  predicate Stuck(c: Fields) {
    Sane(c) && IsOrigin(c) && !c.open && !c.hasStreams
  }

  lemma RankDrops(c: Fields, cut: Cutoffs, options: Options, count: bool)
    requires Stuck(c) && !c.marked && NotLater(c.created, cut)
    ensures var d := After(c, Outcomes(c, cut, options, count));
            Stuck(d) && d.created == c.created && (d.marked || Rank(d) < Rank(c))
  {
  }

  /** Between sweeps other code may touch such a circuit, but not open it, attach a stream, take
      back its flags or change its purpose or age. */
  predicate Drift(c: Fields, d: Fields) {
    && Stuck(d) && d.purpose == c.purpose && d.created == c.created
    && (c.marked ==> d.marked) && (c.hsTimedOut ==> d.hsTimedOut)
  }

  /** A sweep, with the state of the circuit right before it. */
  datatype Visit = Visit(before: Fields, cut: Cutoffs, options: Options, count: bool)

  predicate Visits(c: Fields, visits: seq<Visit>)
    decreases |visits|
  {
    visits == [] ||
    (var v := visits[0];
     Drift(c, v.before) && NotLater(v.before.created, v.cut)
     && Visits(After(v.before, Outcomes(v.before, v.cut, v.options, v.count)), visits[1..]))
  }

  function AfterVisits(c: Fields, visits: seq<Visit>): Fields
    requires Visits(c, visits)
    decreases |visits|
  {
    if visits == [] then c
    else
      var v := visits[0];
      AfterVisits(After(v.before, Outcomes(v.before, v.cut, v.options, v.count)), visits[1..])
  }

  lemma {:induction false} ClosedByRank(c: Fields, visits: seq<Visit>)
    requires Visits(c, visits) && Stuck(c) && (c.marked || Rank(c) < |visits|)
    ensures AfterVisits(c, visits).marked
    decreases |visits|
  {
    if visits != [] {
      var v := visits[0];
      if !v.before.marked {
        RankDrops(v.before, v.cut, v.options, v.count);
      }
      ClosedByRank(After(v.before, Outcomes(v.before, v.cut, v.options, v.count)), visits[1..]);
    }
  }

  /** Whatever the build-time functions answer, three sweeps that find it older than every cutoff
      close a circuit that never got open and carries no streams. */
  lemma ClosedWithinThree(c: Fields, visits: seq<Visit>)
    requires Visits(c, visits) && Stuck(c) && |visits| == 3
    ensures AfterVisits(c, visits).marked
  {
    ClosedByRank(c, visits);
  }

  /** Two sweeps are not enough. */
  lemma TwoAreNotEnough(cut: Cutoffs) returns (c: Fields, visits: seq<Visit>)
    requires exists t :: NotLater(t, cut)
    ensures Stuck(c) && |visits| == 2 && Visits(c, visits) && !AfterVisits(c, visits).marked
  {
    var t :| NotLater(t, cut);
    c := Fields(C_INTRODUCE_ACK_WAIT, false, false, t, 0, NoBuild, false, false, false, false, false);
    var options := Options(false, false);
    var d := c.(hsTimedOut := true);
    visits := [Visit(c, cut, options, false), Visit(d, cut, options, true)];
    assert After(c, Outcomes(c, cut, options, false)) == d;
    var e := After(d, Outcomes(d, cut, options, true));
    assert !e.marked;
    assert visits[1..] == [visits[1]] && visits[1..][1..] == [];
    assert Visits(e, []) && AfterVisits(e, []) == e;
    assert Visits(d, visits[1..]) && AfterVisits(d, visits[1..]) == e;
  }

  /** A circuit is spared at most once, never closed before its own cutoff, and not touched while
      streams are attached to it before it is open. */
  lemma SweepIsCareful(c: Fields, cut: Cutoffs, options: Options, count: bool)
    requires Sane(c)
    ensures var o := Outcomes(c, cut, options, count);
            && (o.Spared? ==> !c.hsTimedOut)
            && (o != Untouched ==> !Later(c.created, CutoffFor(c, cut)) && IsOrigin(c) && !c.marked)
            && (o != Untouched && !c.open ==> !c.hasStreams)
            && (o != Untouched && c.open ==>
                  c.purpose in {C_ESTABLISH_REND, C_INTRODUCING, S_ESTABLISH_INTRO, C_REND_READY,
                                C_REND_READY_INTRO_ACKED, C_INTRODUCE_ACK_WAIT})
            && (o.CountedTimeout? ==> !c.open)
  {
  }
}

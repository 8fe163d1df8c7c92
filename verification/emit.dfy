/**
 * The client's connection/retry orchestrator (emit): one transport handle,
 * then up to three attempts of close → connect → set timeout → send →
 * listen, with a linear backoff before every attempt after the first.
 *
 * The transport library is not part of this model. What its calls return is
 * an input: one `Attempt` record per possible attempt, holding the state each
 * call would return (zero is success). The threshold the listen state is
 * compared with, DUCQ_ERROR, is a parameter `hardError`. Instead of doing
 * I/O, the orchestrator records each call it makes as an `Event`.
 */
module Emitter {
  import opened ClientConfig

  const MaxTries := 3
  /** The sleep before attempt `k > 1` lasts `k * BackoffUnit` seconds. */
  const BackoffUnit := 5
  /** The value passed to the transport's timeout call at every attempt (its unit is the transport's). */
  const TimeoutValue := 60

  /** The transport handle, as created from the configured host and port. */
  datatype Handle = Handle(host: string, port: string)

  /** One call the orchestrator makes, in the order it makes it. */
  datatype Event =
    | NewTcp(handle: Handle)
    | Close
    | Conn
    | SetTimeout(value: int)
    | Send(command: string, route: string, payload: string)
    | Listen
    | Sleep(seconds: int)

  /**
   * The states the transport returns during one attempt: from connect, from
   * setting the timeout, from sending, and from listening. A value for a
   * call the attempt never makes is ignored.
   */
  datatype Attempt = Attempt(conn: int, timeout: int, send: int, listen: int)

  /** A step fails when its state is nonzero; the rest of the attempt is skipped. */
  predicate Failed(state: int)
  {
    state != 0
  }

  /** Connect, timeout and send all succeeded, so listen is called. */
  predicate ReachesListen(a: Attempt)
  {
    !Failed(a.conn) && !Failed(a.timeout) && !Failed(a.send)
  }

  /** The attempt listened and listen returned below the hard-error threshold: no retry. */
  predicate Finishes(a: Attempt, hardError: int)
  {
    ReachesListen(a) && a.listen < hardError
  }

  /** Attempt `k` is the last one: it finished, or it was the third. */
  predicate IsLast(outcomes: seq<Attempt>, hardError: int, k: nat)
    requires |outcomes| == MaxTries && 1 <= k <= MaxTries
  {
    Finishes(outcomes[k - 1], hardError) || k == MaxTries
  }

  /** The full cycle of one attempt that fails nowhere. */
  function Cycle(conf: Config): seq<Event>
  {
    [Close, Conn, SetTimeout(TimeoutValue), Send(conf.command, conf.route, conf.payload), Listen]
  }

  /** What precedes attempt `k`: nothing before the first, a sleep before the others. */
  function Backoff(k: nat): seq<Event>
  {
    if k > 1 then [Sleep(k * BackoffUnit)] else []
  }

  /** The calls of one attempt: the cycle up to and including the first step that fails. */
  function AttemptEvents(conf: Config, a: Attempt): seq<Event>
  {
    [Close, Conn] +
    if Failed(a.conn) then [] else
      [SetTimeout(TimeoutValue)] +
      if Failed(a.timeout) then [] else
        [Send(conf.command, conf.route, conf.payload)] +
        if Failed(a.send) then [] else [Listen]
  }

  /** The calls of attempts `k`, `k + 1`, … up to the last one. */
  function AttemptsFrom(conf: Config, outcomes: seq<Attempt>, hardError: int, k: nat): seq<Event>
    requires |outcomes| == MaxTries && 1 <= k <= MaxTries
    decreases MaxTries - k
  {
    Backoff(k) + AttemptEvents(conf, outcomes[k - 1]) +
    if IsLast(outcomes, hardError, k) then [] else AttemptsFrom(conf, outcomes, hardError, k + 1)
  }

  /** Every call emit makes, in order. */
  function EmitTrace(conf: Config, outcomes: seq<Attempt>, hardError: int): seq<Event>
    requires |outcomes| == MaxTries
  {
    [NewTcp(Handle(conf.host, conf.port))] + AttemptsFrom(conf, outcomes, hardError, 1)
  }

  /**
   * The number of the last attempt, counting from attempt `k`: the first
   * attempt that finishes, or the third when none before it does.
   */
  function Tries(outcomes: seq<Attempt>, hardError: int, k: nat): (n: nat)
    requires |outcomes| == MaxTries && 1 <= k <= MaxTries
    ensures k <= n <= MaxTries
    ensures forall j :: k - 1 <= j < n - 1 ==> !Finishes(outcomes[j], hardError)
    ensures n < MaxTries ==> Finishes(outcomes[n - 1], hardError)
    decreases MaxTries - k
  {
    if IsLast(outcomes, hardError, k) then k else Tries(outcomes, hardError, k + 1)
  }

  /**
   * One attempt of emit's loop, after its backoff: close, then connect, set
   * the timeout and send, skipping the rest of the attempt at the first
   * nonzero state, then listen. Returns the calls made and whether the loop
   * is to end here.
   */
  method TryOnce(conf: Config, a: Attempt, hardError: int) returns (calls: seq<Event>, done: bool)
    ensures calls == AttemptEvents(conf, a)
    ensures done == Finishes(a, hardError)
  {
    done := false;
    calls := [Close];
    calls := calls + [Conn];
    if Failed(a.conn) {
      return;
    }
    calls := calls + [SetTimeout(TimeoutValue)];
    if Failed(a.timeout) {
      return;
    }
    calls := calls + [Send(conf.command, conf.route, conf.payload)];
    if Failed(a.send) {
      return;
    }
    calls := calls + [Listen];
    done := a.listen < hardError;
  }

  /**
   * emit: creates the handle once, then runs the do … while loop of at most
   * three attempts, sleeping `try * 5` seconds before every attempt after
   * the first; an attempt whose listen state is below `hardError` leaves the
   * loop. Returns the handle, the number of the last attempt, and the calls
   * made.
   */
  method Emit(conf: Config, outcomes: seq<Attempt>, hardError: int) returns (handle: Handle, tries: nat, trace: seq<Event>)
    requires |outcomes| == MaxTries
    ensures handle == Handle(conf.host, conf.port)
    ensures tries == Tries(outcomes, hardError, 1)
    ensures trace == EmitTrace(conf, outcomes, hardError)
  {
    handle := Handle(conf.host, conf.port);
    trace := [NewTcp(handle)];
    tries := 0;
    while true
      invariant 0 <= tries < MaxTries
      invariant tries > 0 ==> !IsLast(outcomes, hardError, tries)
      invariant trace + AttemptsFrom(conf, outcomes, hardError, tries + 1) == EmitTrace(conf, outcomes, hardError)
      invariant Tries(outcomes, hardError, tries + 1) == Tries(outcomes, hardError, 1)
      decreases MaxTries - tries
    {
      ghost var before := trace;
      tries := tries + 1;
      if tries > 1 {
        trace := trace + [Sleep(tries * BackoffUnit)];
      }
      var calls, done := TryOnce(conf, outcomes[tries - 1], hardError);
      trace := trace + calls;
      EmitStep(conf, outcomes, hardError, tries, before, trace);
      if done || tries >= MaxTries {
        break;
      }
    }
  }

  /** One pass of emit's loop appends attempt `k`'s calls; what is left is the attempts after it. */
  lemma EmitStep(conf: Config, outcomes: seq<Attempt>, hardError: int, k: nat, before: seq<Event>, after: seq<Event>)
    requires |outcomes| == MaxTries && 1 <= k <= MaxTries
    requires after == before + Backoff(k) + AttemptEvents(conf, outcomes[k - 1])
    ensures before + AttemptsFrom(conf, outcomes, hardError, k)
      == after + if IsLast(outcomes, hardError, k) then [] else AttemptsFrom(conf, outcomes, hardError, k + 1)
  {
  }

  // ---------------------------------------------------------------------------
  // Within one attempt

  /**
   * One attempt makes its calls in the order close, connect, timeout, send,
   * listen, and makes each call after connect exactly when every earlier
   * step succeeded.
   */
  lemma AttemptOrder(conf: Config, a: Attempt)
    ensures AttemptEvents(conf, a) <= Cycle(conf)
    ensures |AttemptEvents(conf, a)| >= 2
    ensures SetTimeout(TimeoutValue) in AttemptEvents(conf, a) <==> !Failed(a.conn)
    ensures Send(conf.command, conf.route, conf.payload) in AttemptEvents(conf, a) <==> !Failed(a.conn) && !Failed(a.timeout)
    ensures Listen in AttemptEvents(conf, a) <==> ReachesListen(a)
  {
  }

  // ---------------------------------------------------------------------------
  // Counting calls

  /** How many times `e` occurs in `t`. */
  function Occurrences(t: seq<Event>, e: Event): nat
  {
    if t == [] then 0 else (if t[0] == e then 1 else 0) + Occurrences(t[1..], e)
  }

  lemma {:induction false} OccurrencesAppend(s: seq<Event>, t: seq<Event>, e: Event)
    ensures Occurrences(s + t, e) == Occurrences(s, e) + Occurrences(t, e)
    decreases |s|
  {
    if s == [] {
      assert s + t == t;
    } else {
      assert (s + t)[1..] == s[1..] + t;
      OccurrencesAppend(s[1..], t, e);
    }
  }

  lemma {:induction false} OccurrencesAbsent(t: seq<Event>, e: Event)
    requires e !in t
    ensures Occurrences(t, e) == 0
    decreases |t|
  {
    if t != [] {
      OccurrencesAbsent(t[1..], e);
    }
  }

  /** One attempt, with its backoff, connects once and closes once, and creates no handle. */
  lemma OccurrencesInAttempt(conf: Config, a: Attempt, k: nat, h: Handle)
    ensures Occurrences(Backoff(k) + AttemptEvents(conf, a), Conn) == 1
    ensures Occurrences(Backoff(k) + AttemptEvents(conf, a), Close) == 1
    ensures Occurrences(Backoff(k) + AttemptEvents(conf, a), NewTcp(h)) == 0
  {
    var tail := AttemptEvents(conf, a)[2..];
    assert AttemptEvents(conf, a) == [Close, Conn] + tail;
    assert Close !in tail && Conn !in tail && NewTcp(h) !in tail;
    forall e | e == Close || e == Conn || e == NewTcp(h)
      ensures Occurrences(Backoff(k) + AttemptEvents(conf, a), e) == if e.NewTcp? then 0 else 1
    {
      OccurrencesAppend(Backoff(k), [Close, Conn] + tail, e);
      OccurrencesAppend([Close, Conn], tail, e);
      OccurrencesAbsent(tail, e);
    }
  }

  /** Attempts `k` to the last connect once and close once each, and never create a handle. */
  lemma {:induction false} AttemptsFromCounts(conf: Config, outcomes: seq<Attempt>, hardError: int, k: nat, h: Handle)
    requires |outcomes| == MaxTries && 1 <= k <= MaxTries
    ensures Occurrences(AttemptsFrom(conf, outcomes, hardError, k), Conn) == Tries(outcomes, hardError, k) - k + 1
    ensures Occurrences(AttemptsFrom(conf, outcomes, hardError, k), Close) == Tries(outcomes, hardError, k) - k + 1
    ensures Occurrences(AttemptsFrom(conf, outcomes, hardError, k), NewTcp(h)) == 0
    decreases MaxTries - k
  {
    var head := Backoff(k) + AttemptEvents(conf, outcomes[k - 1]);
    var rest := if IsLast(outcomes, hardError, k) then [] else AttemptsFrom(conf, outcomes, hardError, k + 1);
    OccurrencesInAttempt(conf, outcomes[k - 1], k, h);
    OccurrencesAppend(head, rest, Conn);
    OccurrencesAppend(head, rest, Close);
    OccurrencesAppend(head, rest, NewTcp(h));
    if !IsLast(outcomes, hardError, k) {
      AttemptsFromCounts(conf, outcomes, hardError, k + 1, h);
    }
  }

  /**
   * emit creates its handle exactly once, as its first call, and connects and
   * closes once per attempt: between one and three times.
   */
  lemma ConnectsOncePerAttempt(conf: Config, outcomes: seq<Attempt>, hardError: int)
    requires |outcomes| == MaxTries
    ensures EmitTrace(conf, outcomes, hardError)[0] == NewTcp(Handle(conf.host, conf.port))
    ensures Occurrences(EmitTrace(conf, outcomes, hardError), NewTcp(Handle(conf.host, conf.port))) == 1
    ensures Occurrences(EmitTrace(conf, outcomes, hardError), Conn) == Tries(outcomes, hardError, 1)
    ensures Occurrences(EmitTrace(conf, outcomes, hardError), Close) == Tries(outcomes, hardError, 1)
    ensures 1 <= Occurrences(EmitTrace(conf, outcomes, hardError), Conn) <= MaxTries
  {
    var h := Handle(conf.host, conf.port);
    var body := AttemptsFrom(conf, outcomes, hardError, 1);
    AttemptsFromCounts(conf, outcomes, hardError, 1, h);
    OccurrencesAppend([NewTcp(h)], body, NewTcp(h));
    OccurrencesAppend([NewTcp(h)], body, Conn);
    OccurrencesAppend([NewTcp(h)], body, Close);
  }

  // ---------------------------------------------------------------------------
  // Backoff

  /** The durations of the sleeps in `t`, in order. */
  function Sleeps(t: seq<Event>): seq<int>
  {
    if t == [] then []
    else (if t[0].Sleep? then [t[0].seconds] else []) + Sleeps(t[1..])
  }

  lemma {:induction false} SleepsAppend(s: seq<Event>, t: seq<Event>)
    ensures Sleeps(s + t) == Sleeps(s) + Sleeps(t)
    decreases |s|
  {
    if s == [] {
      assert s + t == t;
    } else {
      assert (s + t)[1..] == s[1..] + t;
      SleepsAppend(s[1..], t);
    }
  }

  lemma SleepsInAttempt(conf: Config, a: Attempt)
    ensures Sleeps(AttemptEvents(conf, a)) == []
  {
    var t := AttemptEvents(conf, a);
    var n := |t|;
    assert t == Cycle(conf)[..n];
    assert Sleeps(t) == [] by {
      assert n in {2, 3, 4, 5};
      if n == 2 {
        assert Sleeps(t[1..]) == [];
      } else if n == 3 {
        assert Sleeps(t[2..]) == [];
        assert Sleeps(t[1..]) == [];
      } else if n == 4 {
        assert Sleeps(t[3..]) == [];
        assert Sleeps(t[2..]) == [];
        assert Sleeps(t[1..]) == [];
      } else {
        assert Sleeps(t[4..]) == [];
        assert Sleeps(t[3..]) == [];
        assert Sleeps(t[2..]) == [];
        assert Sleeps(t[1..]) == [];
      }
    }
  }

  /** From attempt `k >= 2` on, the sleeps last k·5, (k+1)·5, … seconds, one per attempt made. */
  lemma {:induction false} SleepsFrom(conf: Config, outcomes: seq<Attempt>, hardError: int, k: nat)
    requires |outcomes| == MaxTries && 2 <= k <= MaxTries
    ensures |Sleeps(AttemptsFrom(conf, outcomes, hardError, k))| == Tries(outcomes, hardError, k) - k + 1
    ensures forall i :: 0 <= i < |Sleeps(AttemptsFrom(conf, outcomes, hardError, k))| ==>
      Sleeps(AttemptsFrom(conf, outcomes, hardError, k))[i] == (k + i) * BackoffUnit
    decreases MaxTries - k
  {
    var a := outcomes[k - 1];
    var rest := if IsLast(outcomes, hardError, k) then [] else AttemptsFrom(conf, outcomes, hardError, k + 1);
    SleepsAppend(Backoff(k) + AttemptEvents(conf, a), rest);
    SleepsAppend(Backoff(k), AttemptEvents(conf, a));
    SleepsInAttempt(conf, a);
    assert Sleeps(Backoff(k)) == [k * BackoffUnit] by {
      assert Backoff(k)[1..] == [];
    }
    if !IsLast(outcomes, hardError, k) {
      SleepsFrom(conf, outcomes, hardError, k + 1);
    }
  }

  /**
   * There is no sleep before the first attempt (its close directly follows
   * the handle's creation); before attempt `k > 1` the sleep lasts `k * 5`
   * seconds, so 10 then 15, and there is one sleep per retry.
   */
  lemma BackoffSchedule(conf: Config, outcomes: seq<Attempt>, hardError: int)
    requires |outcomes| == MaxTries
    ensures EmitTrace(conf, outcomes, hardError)[1] == Close
    ensures |Sleeps(EmitTrace(conf, outcomes, hardError))| == Tries(outcomes, hardError, 1) - 1
    ensures forall i :: 0 <= i < |Sleeps(EmitTrace(conf, outcomes, hardError))| ==>
      Sleeps(EmitTrace(conf, outcomes, hardError))[i] == (i + 2) * BackoffUnit
  {
    var h := Handle(conf.host, conf.port);
    var body := AttemptsFrom(conf, outcomes, hardError, 1);
    var t := EmitTrace(conf, outcomes, hardError);
    SleepsOfFirst(conf, outcomes, hardError);
    SleepsAppend([NewTcp(h)], body);
    assert Sleeps([NewTcp(h)]) == [];
    assert Sleeps(t) == Sleeps(body);
    AttemptOrdered(conf, outcomes[0], 1);
    assert t[1] == body[0];
    if !IsLast(outcomes, hardError, 1) {
      SleepsFrom(conf, outcomes, hardError, 2);
    }
  }

  /** The first attempt sleeps nowhere: the sleeps are those of the attempts after it. */
  lemma SleepsOfFirst(conf: Config, outcomes: seq<Attempt>, hardError: int)
    requires |outcomes| == MaxTries
    ensures Sleeps(AttemptsFrom(conf, outcomes, hardError, 1))
      == if IsLast(outcomes, hardError, 1) then [] else Sleeps(AttemptsFrom(conf, outcomes, hardError, 2))
    ensures Tries(outcomes, hardError, 1)
      == if IsLast(outcomes, hardError, 1) then 1 else Tries(outcomes, hardError, 2)
  {
    var a := outcomes[0];
    var rest := if IsLast(outcomes, hardError, 1) then [] else AttemptsFrom(conf, outcomes, hardError, 2);
    assert AttemptsFrom(conf, outcomes, hardError, 1) == AttemptEvents(conf, a) + rest;
    SleepsAppend(AttemptEvents(conf, a), rest);
    SleepsInAttempt(conf, a);
  }

  // ---------------------------------------------------------------------------
  // Ordering across attempts

  /** `e` may directly follow `prev` in a trace of emit. */
  predicate Follows(prev: Event, e: Event)
  {
    match e
    case NewTcp(_) => false
    case Close => prev.NewTcp? || prev.Sleep?
    case Conn => prev == Close
    case SetTimeout(_) => prev == Conn
    case Send(_, _, _) => prev.SetTimeout?
    case Listen => prev.Send?
    case Sleep(_) => prev.Conn? || prev.SetTimeout? || prev.Send? || prev.Listen?
  }

  ghost predicate Ordered(t: seq<Event>)
  {
    forall i :: 0 < i < |t| ==> Follows(t[i - 1], t[i])
  }

  /** An attempt ends after connect, timeout, send or listen. */
  predicate EndsAttempt(e: Event)
  {
    e.Conn? || e.SetTimeout? || e.Send? || e.Listen?
  }

  lemma OrderedConcat(s: seq<Event>, t: seq<Event>)
    requires Ordered(s) && Ordered(t)
    requires s != [] && t != [] ==> Follows(s[|s| - 1], t[0])
    ensures Ordered(s + t)
  {
    forall i | 0 < i < |s + t| ensures Follows((s + t)[i - 1], (s + t)[i]) {
      if i < |s| {
        assert (s + t)[i - 1] == s[i - 1] && (s + t)[i] == s[i];
      } else if i == |s| {
        assert (s + t)[i] == t[0];
      } else {
        assert (s + t)[i - 1] == t[i - 1 - |s|] && (s + t)[i] == t[i - |s|];
      }
    }
  }

  lemma AttemptOrdered(conf: Config, a: Attempt, k: nat)
    ensures Ordered(Backoff(k) + AttemptEvents(conf, a))
    ensures (Backoff(k) + AttemptEvents(conf, a))[0] == if k > 1 then Sleep(k * BackoffUnit) else Close
    ensures EndsAttempt(AttemptEvents(conf, a)[|AttemptEvents(conf, a)| - 1])
    ensures AttemptEvents(conf, a)[|AttemptEvents(conf, a)| - 1] == Listen <==> ReachesListen(a)
  {
    var t := AttemptEvents(conf, a);
    assert t == Cycle(conf)[..|t|];
    assert Ordered(t);
    OrderedConcat(Backoff(k), t);
  }

  /** Attempts `k` to the last are in call order, begin with `k`'s backoff or close, and end an attempt. */
  lemma {:induction false} AttemptsFromOrdered(conf: Config, outcomes: seq<Attempt>, hardError: int, k: nat)
    requires |outcomes| == MaxTries && 1 <= k <= MaxTries
    ensures Ordered(AttemptsFrom(conf, outcomes, hardError, k))
    ensures AttemptsFrom(conf, outcomes, hardError, k)[0] == if k > 1 then Sleep(k * BackoffUnit) else Close
    ensures EndsAttempt(Last(AttemptsFrom(conf, outcomes, hardError, k)))
    ensures Last(AttemptsFrom(conf, outcomes, hardError, k)) == Listen
      <==> ReachesListen(outcomes[Tries(outcomes, hardError, k) - 1])
    decreases MaxTries - k
  {
    var a := outcomes[k - 1];
    var head := Backoff(k) + AttemptEvents(conf, a);
    AttemptOrdered(conf, a, k);
    assert Last(head) == Last(AttemptEvents(conf, a));
    if IsLast(outcomes, hardError, k) {
      assert AttemptsFrom(conf, outcomes, hardError, k) == head;
    } else {
      var rest := AttemptsFrom(conf, outcomes, hardError, k + 1);
      AttemptsFromOrdered(conf, outcomes, hardError, k + 1);
      OrderedConcat(head, rest);
      assert AttemptsFrom(conf, outcomes, hardError, k) == head + rest;
      assert Last(head + rest) == Last(rest);
    }
  }

  function Last(t: seq<Event>): Event
    requires t != []
  {
    t[|t| - 1]
  }

  /**
   * The whole trace of emit is in call order: the handle is created first and
   * only then; each attempt is close → connect → timeout → send → listen cut
   * after its first failing step; every sleep comes between the end of one
   * attempt and the close that starts the next; and the run ends with the
   * last step of an attempt, listen exactly when the last attempt reached it.
   */
  lemma EmitOrdered(conf: Config, outcomes: seq<Attempt>, hardError: int)
    requires |outcomes| == MaxTries
    ensures Ordered(EmitTrace(conf, outcomes, hardError))
    ensures EndsAttempt(Last(EmitTrace(conf, outcomes, hardError)))
    ensures Last(EmitTrace(conf, outcomes, hardError)) == Listen
      <==> ReachesListen(outcomes[Tries(outcomes, hardError, 1) - 1])
  {
    var h := Handle(conf.host, conf.port);
    var body := AttemptsFrom(conf, outcomes, hardError, 1);
    AttemptsFromOrdered(conf, outcomes, hardError, 1);
    OrderedConcat([NewTcp(h)], body);
    assert Last([NewTcp(h)] + body) == Last(body);
  }

  // ---------------------------------------------------------------------------
  // How the loop ends

  /**
   * When attempt `k` is the first whose listen returns below the threshold,
   * emit stops right there: `k` attempts, `k` closes, and the listen is its
   * last call (no further close, sleep or attempt).
   */
  lemma FirstFinishStops(conf: Config, outcomes: seq<Attempt>, hardError: int, k: nat)
    requires |outcomes| == MaxTries && 1 <= k <= MaxTries
    requires Finishes(outcomes[k - 1], hardError)
    requires forall j :: 0 <= j < k - 1 ==> !Finishes(outcomes[j], hardError)
    ensures Tries(outcomes, hardError, 1) == k
    ensures Occurrences(EmitTrace(conf, outcomes, hardError), Close) == k
    ensures Last(EmitTrace(conf, outcomes, hardError)) == Listen
  {
    ConnectsOncePerAttempt(conf, outcomes, hardError);
    EmitOrdered(conf, outcomes, hardError);
  }

  /**
   * When no attempt finishes, emit makes all three attempts, connecting three
   * times and sleeping 10 then 15 seconds, and still returns its handle.
   */
  lemma AllFailuresExhaust(conf: Config, outcomes: seq<Attempt>, hardError: int)
    requires |outcomes| == MaxTries
    requires forall j :: 0 <= j < MaxTries ==> !Finishes(outcomes[j], hardError)
    ensures Tries(outcomes, hardError, 1) == MaxTries
    ensures Occurrences(EmitTrace(conf, outcomes, hardError), Conn) == MaxTries
    ensures Sleeps(EmitTrace(conf, outcomes, hardError)) == [10, 15]
  {
    var n := Tries(outcomes, hardError, 1);
    assert n == MaxTries;
    ExhaustedSleeps(conf, outcomes, hardError);
    ConnectsOncePerAttempt(conf, outcomes, hardError);
  }

  /** A run of three attempts sleeps 10 then 15 seconds. */
  lemma ExhaustedSleeps(conf: Config, outcomes: seq<Attempt>, hardError: int)
    requires |outcomes| == MaxTries && Tries(outcomes, hardError, 1) == MaxTries
    ensures Sleeps(EmitTrace(conf, outcomes, hardError)) == [10, 15]
  {
    var sleeps := Sleeps(EmitTrace(conf, outcomes, hardError));
    BackoffSchedule(conf, outcomes, hardError);
    assert |sleeps| == 2 && sleeps[0] == 10 && sleeps[1] == 15;
  }
}

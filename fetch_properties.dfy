/** What one `Fetch` cycle does, stated about the loop function `FetchLoop`
    that `LoadStats.Fetch` is proved to follow: ports are attempted strictly
    in configured order, each failure is reported once and the loop goes
    on, each success is reported as an event, the first refused event ends
    the cycle, and only a panic keeps `Fetch` from returning nil. */
module FetchProperties {
  import opened Bytes
  import opened LoadStats

  /** What the reporter receives for one attempted port: one error, one
      event, or nothing when the attempt panics. */
  function ReportsOf(o: MetricOutcome): seq<Report>
  {
    match o
    case Failure(err) => [Errored(err)]
    case Success(event) => [Emitted(event)]
    case Panic => []
  }

  /** The reports of the outcomes `i` up to `j`, in order. */
  function AllReports(os: seq<MetricOutcome>, i: nat, j: nat): seq<Report>
    requires i <= j <= |os|
    decreases j - i
  {
    if i == j then [] else ReportsOf(os[i]) + AllReports(os, i + 1, j)
  }

  /** The dials of the ports `i` up to `j`, in order. */
  function DialsOf(ports: seq<seq<byte>>, i: nat, j: nat): (ds: seq<DialRequest>)
    requires i <= j <= |ports|
    ensures |ds| == j - i
    ensures forall k :: i <= k < j ==> ds[k - i] == DialOf(ports[k])
    decreases j - i
  {
    if i == j then [] else [DialOf(ports[i])] + DialsOf(ports, i + 1, j)
  }

  /** How many ports a run from `st` to `e` attempted, counted by its dials. */
  function Attempted(st: FetchState, e: FetchEnd): int
  {
    |e.st.dials| - |st.dials|
  }

  /** One attempt adds exactly its dial and its report, and counts one
      event call exactly when it succeeded. */
  lemma AfterAttemptAppends(st: FetchState, port: seq<byte>, o: MetricOutcome)
    ensures AfterAttempt(st, port, o).dials == st.dials + [DialOf(port)]
    ensures AfterAttempt(st, port, o).reports == st.reports + ReportsOf(o)
    ensures AfterAttempt(st, port, o).events == st.events + (if o.Success? then 1 else 0)
  {
  }

  lemma ConcatAssoc<T>(a: seq<T>, b: seq<T>, c: seq<T>)
    ensures (a + b) + c == a + (b + c)
  {
  }

  /** The loop dials a prefix of the remaining ports, strictly in order, and
      reports, in that same order, one error for each failing port and one
      event for each successful one; nothing is ever taken back. */
  lemma {:induction false} FetchVisitsInOrder(ports: seq<seq<byte>>, outcomes: seq<MetricOutcome>, i: nat,
                                              answers: seq<bool>, st: FetchState)
    requires |outcomes| == |ports| && i <= |ports|
    ensures var e := FetchLoop(ports, outcomes, i, answers, st);
            0 <= Attempted(st, e) <= |ports| - i
    ensures var e := FetchLoop(ports, outcomes, i, answers, st);
            var m := i + Attempted(st, e);
            0 <= m <= |ports| &&
            e.st.dials == st.dials + DialsOf(ports, i, m) &&
            e.st.reports == st.reports + AllReports(outcomes, i, m)
    decreases |ports| - i
  {
    var e := FetchLoop(ports, outcomes, i, answers, st);
    if i < |ports| {
      var next := AfterAttempt(st, ports[i], outcomes[i]);
      AfterAttemptAppends(st, ports[i], outcomes[i]);
      if !outcomes[i].Panic? && Continues(st, outcomes[i], answers) {
        assert e == FetchLoop(ports, outcomes, i + 1, answers, next);
        FetchVisitsInOrder(ports, outcomes, i + 1, answers, next);
        var m := i + 1 + Attempted(next, e);
        ConcatAssoc(st.dials, [DialOf(ports[i])], DialsOf(ports, i + 1, m));
        ConcatAssoc(st.reports, ReportsOf(outcomes[i]), AllReports(outcomes, i + 1, m));
      } else {
        assert e.st == next;
      }
    }
  }

  /** Why the loop stops. It panics exactly when the last port it attempted
      panicked, and no earlier one did; every event before the last was
      accepted; and when ports are left unattempted without a panic, the
      last attempted port produced an event that the reporter refused. */
  lemma {:induction false} FetchStopReason(ports: seq<seq<byte>>, outcomes: seq<MetricOutcome>, i: nat,
                                           answers: seq<bool>, st: FetchState)
    requires |outcomes| == |ports| && i <= |ports|
    ensures var e := FetchLoop(ports, outcomes, i, answers, st);
            0 <= Attempted(st, e) <= |ports| - i && st.events <= e.st.events
    ensures var e := FetchLoop(ports, outcomes, i, answers, st);
            var n := Attempted(st, e);
            (forall k :: i <= k < i + n - 1 ==> !outcomes[k].Panic?) &&
            (e.Panicked? <==> n >= 1 && outcomes[i + n - 1].Panic?) &&
            (forall j :: st.events <= j < e.st.events - 1 ==> Accepts(answers, j)) &&
            (e.ReturnedNil? && i + n < |ports| ==>
               n >= 1 && outcomes[i + n - 1].Success? && e.st.events >= 1 && !Accepts(answers, e.st.events - 1))
    decreases |ports| - i
  {
    FetchVisitsInOrder(ports, outcomes, i, answers, st);
    if i < |ports| {
      var next := AfterAttempt(st, ports[i], outcomes[i]);
      AfterAttemptAppends(st, ports[i], outcomes[i]);
      if !outcomes[i].Panic? && Continues(st, outcomes[i], answers) {
        FetchStopReason(ports, outcomes, i + 1, answers, next);
      }
    }
  }

  /** With no panicking port and a reporter that accepts every event, every
      port is attempted and `Fetch` returns nil. */
  lemma {:induction false} FetchVisitsAll(ports: seq<seq<byte>>, outcomes: seq<MetricOutcome>, i: nat,
                                          answers: seq<bool>, st: FetchState)
    requires |outcomes| == |ports| && i <= |ports|
    requires forall k :: i <= k < |ports| ==> !outcomes[k].Panic?
    requires forall j :: 0 <= j < |answers| ==> answers[j]
    ensures var e := FetchLoop(ports, outcomes, i, answers, st);
            e.ReturnedNil? && Attempted(st, e) == |ports| - i
    decreases |ports| - i
  {
    if i < |ports| {
      AfterAttemptAppends(st, ports[i], outcomes[i]);
      FetchVisitsAll(ports, outcomes, i + 1, answers, AfterAttempt(st, ports[i], outcomes[i]));
    }
  }

  /** When no outcome panics, the `k`-th report belongs to the `k`-th port:
      an error for a failure, an event for a success. */
  lemma {:induction false} AllReportsPerPort(os: seq<MetricOutcome>, i: nat, j: nat)
    requires i <= j <= |os|
    requires forall k :: i <= k < j ==> !os[k].Panic?
    ensures |AllReports(os, i, j)| == j - i
    ensures forall k :: i <= k < j ==>
              AllReports(os, i, j)[k - i] == (if os[k].Failure? then Errored(os[k].err) else Emitted(os[k].event))
    decreases j - i
  {
    if i < j {
      AllReportsPerPort(os, i + 1, j);
      var head := ReportsOf(os[i]);
      var tail := AllReports(os, i + 1, j);
      assert |head| == 1 && head[0] == (if os[i].Failure? then Errored(os[i].err) else Emitted(os[i].event));
      assert AllReports(os, i, j) == head + tail;
    }
  }

  /** Three ports, the middle one failing, and a reporter that accepts both
      events: the error is reported in its place between the two events,
      all three ports are dialed in order, and `Fetch` returns nil. */
  lemma FetchMiddlePortFails(ports: seq<seq<byte>>, outcomes: seq<MetricOutcome>, answers: seq<bool>,
                             st: FetchState, a: MetricEvent, err: MetricError, c: MetricEvent)
    requires |ports| == 3 && outcomes == [Success(a), Failure(err), Success(c)]
    requires Accepts(answers, st.events) && Accepts(answers, st.events + 1)
    ensures FetchLoop(ports, outcomes, 0, answers, st) ==
            ReturnedNil(FetchState(st.reports + [Emitted(a), Errored(err), Emitted(c)], st.events + 2,
                                   st.dials + [DialOf(ports[0]), DialOf(ports[1]), DialOf(ports[2])]))
  {
    var st1 := AfterAttempt(st, ports[0], outcomes[0]);
    var st2 := AfterAttempt(st1, ports[1], outcomes[1]);
    var st3 := AfterAttempt(st2, ports[2], outcomes[2]);
    assert FetchLoop(ports, outcomes, 0, answers, st) == FetchLoop(ports, outcomes, 1, answers, st1);
    assert FetchLoop(ports, outcomes, 1, answers, st1) == FetchLoop(ports, outcomes, 2, answers, st2);
    assert FetchLoop(ports, outcomes, 2, answers, st2) == FetchLoop(ports, outcomes, 3, answers, st3);
    assert st3.reports == st.reports + [Emitted(a), Errored(err), Emitted(c)];
    assert st3.dials == st.dials + [DialOf(ports[0]), DialOf(ports[1]), DialOf(ports[2])];
  }

  /** An event the reporter refuses ends the cycle at once: of the ports
      that follow, none is dialed, and `Fetch` returns nil. */
  lemma FetchStopsOnRefusedEvent(ports: seq<seq<byte>>, outcomes: seq<MetricOutcome>, i: nat,
                                 answers: seq<bool>, st: FetchState)
    requires |outcomes| == |ports| && i < |ports|
    requires outcomes[i].Success? && !Accepts(answers, st.events)
    ensures var e := FetchLoop(ports, outcomes, i, answers, st);
            e.ReturnedNil? && e.st.dials == st.dials + [DialOf(ports[i])] &&
            e.st.reports == st.reports + [Emitted(outcomes[i].event)] && e.st.events == st.events + 1
  {
  }
}

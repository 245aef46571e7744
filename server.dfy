/**
 * The server: admission control at accept time and the registry of live
 * sessions. The accept loop is modelled for one sequential interleaving: an
 * admitted session registers itself (its `onConnected`) before the next
 * accept, and whatever other threads do between two accepts (a session
 * ending, a handler calling `shutdown`) appears as a step of its own.
 */
module ServerCore {

  /** The identity of a session object in the registry. */
  type SessionId = nat

  /** The listening socket: not yet created, bound and open, or closed. */
  datatype Listener = Unbound | Listening | Closed

  /** What happens next, as seen from the accept loop. */
  datatype Step =
    | Incoming(id: SessionId)   // accept returns a socket; its session would be `id`
    | AcceptFailed              // accept throws an IOException
    | Departure(id: SessionId)  // between two accepts, session `id` ends and calls `onDisconnected`
    | ShutdownCall              // another thread calls `shutdown`; the blocked accept then throws

  /** `ArrayList.indexOf`: the first position holding `x`, or |s| when there is none. */
  function IndexOf(s: seq<SessionId>, x: SessionId): (i: nat)
    ensures i <= |s|
    ensures i < |s| <==> x in s
    ensures i < |s| ==> s[i] == x
    ensures forall j :: 0 <= j < i ==> s[j] != x
  {
    if s == [] then 0
    else if s[0] == x then 0
    else 1 + IndexOf(s[1..], x)
  }

  /** `ArrayList.remove(Object)`: drops the first occurrence of `x`, if there is one. */
  function RemoveFirst(s: seq<SessionId>, x: SessionId): (r: seq<SessionId>)
    ensures |r| == if x in s then |s| - 1 else |s|
  {
    if s == [] then []
    else if s[0] == x then s[1..]
    else [s[0]] + RemoveFirst(s[1..], x)
  }

  /** Removing a session that is not registered leaves the list as it was. */
  lemma {:induction false} RemoveFirstAbsent(s: seq<SessionId>, x: SessionId)
    requires x !in s
    ensures RemoveFirst(s, x) == s
  {
    if s != [] {
      RemoveFirstAbsent(s[1..], x);
      assert [s[0]] + s[1..] == s;
    }
  }

  lemma ConsSplice(h: SessionId, t: seq<SessionId>, i: nat)
    requires i < |t|
    ensures [h] + (t[..i] + t[i + 1..]) == ([h] + t)[..1 + i] + ([h] + t)[1 + i + 1..]
  {
    assert ([h] + t)[..1 + i] == [h] + t[..i];
    assert ([h] + t)[1 + i + 1..] == t[i + 1..];
  }

  /** Removing a registered session takes out its first entry and keeps every other entry in order. */
  lemma {:induction false} RemoveFirstPresent(s: seq<SessionId>, x: SessionId)
    requires x in s
    ensures RemoveFirst(s, x) == s[..IndexOf(s, x)] + s[IndexOf(s, x) + 1..]
  {
    if s[0] != x {
      var t := s[1..];
      assert s == [s[0]] + t;
      RemoveFirstPresent(t, x);
      ConsSplice(s[0], t, IndexOf(t, x));
    }
  }

  /** Removing takes away exactly one copy of `x` when there is one, and nothing else. */
  lemma {:induction false} RemoveFirstMultiset(s: seq<SessionId>, x: SessionId)
    ensures multiset(RemoveFirst(s, x)) == multiset(s) - multiset{x}
  {
    if s != [] {
      assert s == [s[0]] + s[1..];
      if s[0] != x {
        RemoveFirstMultiset(s[1..], x);
        assert multiset(RemoveFirst(s, x)) == multiset{s[0]} + multiset(RemoveFirst(s[1..], x));
      }
    }
  }

  /** A session that registered last and was never registered before is removed without trace. */
  lemma {:induction false} RemoveFirstAfterAdd(s: seq<SessionId>, x: SessionId)
    requires x !in s
    ensures RemoveFirst(s + [x], x) == s
  {
    var t := s + [x];
    assert x in t;
    RemoveFirstPresent(t, x);
    assert IndexOf(t, x) == |s| by {
      assert t[|s|] == x;
      assert forall j :: 0 <= j < |s| ==> t[j] == s[j];
    }
    assert t[..|s|] == s;
  }

  /** Everything one run of the accept loop does. */
  datatype Admission = Admission(
    sessions: seq<SessionId>,  // the registry at the end
    admitted: seq<SessionId>,  // sessions built and scheduled, in order
    rejected: seq<SessionId>,  // sockets closed because the server was full, in order
    taken: nat)                // steps processed before the loop ended

  /** The admission decision: a socket is taken only while fewer than `capacity` sessions are registered. */
  predicate Admits(sessions: seq<SessionId>, capacity: nat, step: Step)
  {
    step.Incoming? && |sessions| < capacity
  }

  /** The registry once one step other than a shutdown has happened. */
  function Registered(sessions: seq<SessionId>, capacity: nat, step: Step): seq<SessionId>
  {
    match step
    case Incoming(id) => if Admits(sessions, capacity, step) then sessions + [id] else sessions
    case Departure(id) => RemoveFirst(sessions, id)
    case _ => sessions
  }

  function AdmittedBy(sessions: seq<SessionId>, capacity: nat, step: Step): seq<SessionId>
  {
    if Admits(sessions, capacity, step) then [step.id] else []
  }

  function RejectedBy(sessions: seq<SessionId>, capacity: nat, step: Step): seq<SessionId>
  {
    if step.Incoming? && !Admits(sessions, capacity, step) then [step.id] else []
  }

  /**
   * The accept loop over a schedule, one step at a time, until the
   * schedule is exhausted or a shutdown has cleared `running`.
   */
  function Schedule(sessions: seq<SessionId>, capacity: nat, steps: seq<Step>): (r: Admission)
    ensures r.taken <= |steps|
    decreases |steps|
  {
    if steps == [] then Admission(sessions, [], [], 0)
    else if steps[0] == ShutdownCall then Admission(sessions, [], [], 1)
    else
      var step := steps[0];
      var rest := Schedule(Registered(sessions, capacity, step), capacity, steps[1..]);
      Admission(rest.sessions,
                AdmittedBy(sessions, capacity, step) + rest.admitted,
                RejectedBy(sessions, capacity, step) + rest.rejected,
                rest.taken + 1)
  }

  /**
   * One accept: an admitted socket registers exactly its own session; a
   * rejected one, a failed accept or a shutdown leaves the registry as it was;
   * a departure removes the first entry of that session.
   */
  lemma AcceptStep(sessions: seq<SessionId>, capacity: nat, step: Step)
    ensures step.Incoming? ==>
              (|sessions| < capacity <==> AdmittedBy(sessions, capacity, step) == [step.id]) &&
              (|sessions| >= capacity <==> RejectedBy(sessions, capacity, step) == [step.id]) &&
              |AdmittedBy(sessions, capacity, step) + RejectedBy(sessions, capacity, step)| == 1
    ensures !step.Incoming? ==> AdmittedBy(sessions, capacity, step) == [] == RejectedBy(sessions, capacity, step)
    ensures Registered(sessions, capacity, step) ==
              if step.Departure? then RemoveFirst(sessions, step.id)
              else sessions + AdmittedBy(sessions, capacity, step)
  {
  }

  lemma ScheduleUnfold(sessions: seq<SessionId>, capacity: nat, steps: seq<Step>, i: nat)
    requires i < |steps| && steps[i] != ShutdownCall
    ensures var rest := Schedule(Registered(sessions, capacity, steps[i]), capacity, steps[i + 1..]);
            Schedule(sessions, capacity, steps[i..]) ==
              Admission(rest.sessions,
                        AdmittedBy(sessions, capacity, steps[i]) + rest.admitted,
                        RejectedBy(sessions, capacity, steps[i]) + rest.rejected,
                        rest.taken + 1)
  {
    assert steps[i..][0] == steps[i];
    assert steps[i..][1..] == steps[i + 1..];
  }

  /** After `taken` steps with these results, the rest of the schedule completes `spec`. */
  ghost predicate Resumes(spec: Admission, sessions: seq<SessionId>, capacity: nat, steps: seq<Step>,
                          taken: nat, admitted: seq<SessionId>, rejected: seq<SessionId>)
    requires taken <= |steps|
  {
    var rest := Schedule(sessions, capacity, steps[taken..]);
    spec == Admission(rest.sessions, admitted + rest.admitted, rejected + rest.rejected, taken + rest.taken)
  }

  /** One more iteration of the accept loop, seen against the whole run. */
  lemma ScheduleAdvance(spec: Admission, sessions: seq<SessionId>, capacity: nat, steps: seq<Step>,
                        taken: nat, admitted: seq<SessionId>, rejected: seq<SessionId>)
    requires taken < |steps| && steps[taken] != ShutdownCall
    requires Resumes(spec, sessions, capacity, steps, taken, admitted, rejected)
    ensures var step := steps[taken];
            Resumes(spec, Registered(sessions, capacity, step), capacity, steps, taken + 1,
                    admitted + AdmittedBy(sessions, capacity, step), rejected + RejectedBy(sessions, capacity, step))
  {
    ScheduleUnfold(sessions, capacity, steps, taken);
    var step := steps[taken];
    var rest := Schedule(Registered(sessions, capacity, step), capacity, steps[taken + 1..]);
    assert admitted + (AdmittedBy(sessions, capacity, step) + rest.admitted) ==
           admitted + AdmittedBy(sessions, capacity, step) + rest.admitted;
    assert rejected + (RejectedBy(sessions, capacity, step) + rest.rejected) ==
           rejected + RejectedBy(sessions, capacity, step) + rest.rejected;
  }

  /** Admission control keeps the registry within capacity. */
  lemma {:induction false} ScheduleWithinCapacity(sessions: seq<SessionId>, capacity: nat, steps: seq<Step>)
    requires |sessions| <= capacity
    ensures |Schedule(sessions, capacity, steps).sessions| <= capacity
    decreases |steps|
  {
    if steps != [] && steps[0] != ShutdownCall {
      ScheduleWithinCapacity(Registered(sessions, capacity, steps[0]), capacity, steps[1..]);
    }
  }

  /** Every step is processed up to and including the first shutdown, and none after it. */
  lemma {:induction false} ScheduleStopsAtShutdown(sessions: seq<SessionId>, capacity: nat, steps: seq<Step>)
    ensures var r := Schedule(sessions, capacity, steps);
            (ShutdownCall !in steps ==> r.taken == |steps|) &&
            (ShutdownCall in steps ==>
               r.taken >= 1 && steps[r.taken - 1] == ShutdownCall &&
               ShutdownCall !in steps[..r.taken - 1] &&
               r == Schedule(sessions, capacity, steps[..r.taken]))
    decreases |steps|
  {
    if steps != [] && steps[0] != ShutdownCall {
      var tail := steps[1..];
      var next := Registered(sessions, capacity, steps[0]);
      assert steps == [steps[0]] + tail;
      ScheduleStopsAtShutdown(next, capacity, tail);
      var rest := Schedule(next, capacity, tail);
      if ShutdownCall in steps {
        var t := rest.taken;
        assert ShutdownCall in tail;
        assert steps[..t + 1] == [steps[0]] + tail[..t];
        assert steps[..t + 1][1..] == tail[..t];
        assert steps[..t] == [steps[0]] + tail[..t - 1];
      }
    } else if steps != [] {
      assert steps[..0] == [];
      assert steps[..1] == [ShutdownCall];
    }
  }

  /**
   * The accept loop over one schedule followed by another, when the first
   * holds no shutdown: run the first, then the second from the registry the
   * first left behind.
   */
  lemma {:induction false} ScheduleAppend(sessions: seq<SessionId>, capacity: nat, a: seq<Step>, b: seq<Step>)
    requires ShutdownCall !in a
    ensures var x := Schedule(sessions, capacity, a);
            var y := Schedule(x.sessions, capacity, b);
            Schedule(sessions, capacity, a + b) ==
              Admission(y.sessions, x.admitted + y.admitted, x.rejected + y.rejected, x.taken + y.taken)
    decreases |a|
  {
    if a == [] {
      assert a + b == b;
    } else {
      var step := a[0];
      assert (a + b)[0] == step && (a + b)[1..] == a[1..] + b;
      assert ShutdownCall !in a[1..];
      ScheduleAppend(Registered(sessions, capacity, step), capacity, a[1..], b);
      var x := Schedule(Registered(sessions, capacity, step), capacity, a[1..]);
      var y := Schedule(x.sessions, capacity, b);
      assert AdmittedBy(sessions, capacity, step) + (x.admitted + y.admitted) ==
             AdmittedBy(sessions, capacity, step) + x.admitted + y.admitted;
      assert RejectedBy(sessions, capacity, step) + (x.rejected + y.rejected) ==
             RejectedBy(sessions, capacity, step) + x.rejected + y.rejected;
    }
  }

  /** A schedule made of arrivals only. */
  function Incomings(ids: seq<SessionId>): (steps: seq<Step>)
  {
    if ids == [] then [] else [Incoming(ids[0])] + Incomings(ids[1..])
  }

  lemma {:induction false} IncomingsNoShutdown(ids: seq<SessionId>)
    ensures ShutdownCall !in Incomings(ids)
    decreases |ids|
  {
    if ids != [] {
      IncomingsNoShutdown(ids[1..]);
    }
  }

  lemma {:induction false} IncomingsAppend(xs: seq<SessionId>, ys: seq<SessionId>)
    ensures Incomings(xs + ys) == Incomings(xs) + Incomings(ys)
    decreases |xs|
  {
    if xs == [] {
      assert xs + ys == ys;
    } else {
      assert (xs + ys)[0] == xs[0] && (xs + ys)[1..] == xs[1..] + ys;
      IncomingsAppend(xs[1..], ys);
    }
  }

  lemma IncomingsCons(ids: seq<SessionId>)
    requires ids != []
    ensures Incomings(ids) == [Incoming(ids[0])] + Incomings(ids[1..])
  {
  }

  /** One arrival on its own: admitted when there is room, rejected otherwise. */
  lemma ArrivalAlone(sessions: seq<SessionId>, capacity: nat, x: SessionId)
    ensures Schedule(sessions, capacity, [Incoming(x)]) ==
              if |sessions| < capacity then Admission(sessions + [x], [x], [], 1)
              else Admission(sessions, [], [x], 1)
  {
    assert [Incoming(x)][1..] == [];
  }

  lemma AppendHead(s: seq<SessionId>, ids: seq<SessionId>)
    requires ids != []
    ensures s + [ids[0]] + ids[1..] == s + ids
  {
    assert ids == [ids[0]] + ids[1..];
  }

  /** While there is room, every arrival is admitted and registered in order. */
  lemma {:induction false} ArrivalsWithRoom(sessions: seq<SessionId>, capacity: nat, ids: seq<SessionId>)
    requires |sessions| + |ids| <= capacity
    ensures Schedule(sessions, capacity, Incomings(ids)) == Admission(sessions + ids, ids, [], |ids|)
    decreases |ids|
  {
    if ids != [] {
      var x := ids[0];
      IncomingsCons(ids);
      ArrivalAlone(sessions, capacity, x);
      IncomingsNoShutdown(ids[1..]);
      ScheduleAppend(sessions, capacity, [Incoming(x)], Incomings(ids[1..]));
      ArrivalsWithRoom(sessions + [x], capacity, ids[1..]);
      AppendHead(sessions, ids);
      AppendHead([], ids);
    }
  }

  /** Once the registry is full, every arrival is rejected and nothing is registered. */
  lemma {:induction false} ArrivalsWhenFull(sessions: seq<SessionId>, capacity: nat, ids: seq<SessionId>)
    requires |sessions| >= capacity
    ensures Schedule(sessions, capacity, Incomings(ids)) == Admission(sessions, [], ids, |ids|)
    decreases |ids|
  {
    if ids != [] {
      var x := ids[0];
      IncomingsCons(ids);
      ArrivalAlone(sessions, capacity, x);
      IncomingsNoShutdown(ids[1..]);
      ScheduleAppend(sessions, capacity, [Incoming(x)], Incomings(ids[1..]));
      ArrivalsWhenFull(sessions, capacity, ids[1..]);
      AppendHead([], ids);
    }
  }

  /** Arrivals that fit, then arrivals that find the registry full. */
  lemma FillThenReject(sessions: seq<SessionId>, capacity: nat, first: seq<SessionId>, later: seq<SessionId>)
    requires |sessions| + |first| <= capacity
    requires later != [] ==> |sessions| + |first| >= capacity
    ensures Schedule(sessions, capacity, Incomings(first + later)) ==
              Admission(sessions + first, first, later, |first| + |later|)
  {
    IncomingsAppend(first, later);
    IncomingsNoShutdown(first);
    ScheduleAppend(sessions, capacity, Incomings(first), Incomings(later));
    ArrivalsWithRoom(sessions, capacity, first);
    if later != [] {
      ArrivalsWhenFull(sessions + first, capacity, later);
    } else {
      assert first + later == first;
    }
  }

  /**
   * With only arrivals, the first `capacity - |sessions|` sockets are admitted
   * and registered in order and every later one is rejected.
   */
  lemma ArrivalsFillToCapacity(sessions: seq<SessionId>, capacity: nat, ids: seq<SessionId>)
    requires |sessions| <= capacity
    ensures var room := if capacity - |sessions| <= |ids| then capacity - |sessions| else |ids|;
            Schedule(sessions, capacity, Incomings(ids)) ==
              Admission(sessions + ids[..room], ids[..room], ids[room..], |ids|)
  {
    var room := if capacity - |sessions| <= |ids| then capacity - |sessions| else |ids|;
    assert ids == ids[..room] + ids[room..];
    FillThenReject(sessions, capacity, ids[..room], ids[room..]);
  }

  /**
   * The end-to-end admission scenario with capacity 1: A is admitted, B is
   * rejected while A is open, and once A has left, C is admitted.
   */
  lemma CapacityOneScenario(a: SessionId, b: SessionId, c: SessionId)
    ensures Schedule([], 1, [Incoming(a), Incoming(b), Departure(a), Incoming(c)]) ==
              Admission([c], [a, c], [b], 4)
  {
    var s1 := [Incoming(c)];
    var s2 := [Departure(a)] + s1;
    var s3 := [Incoming(b)] + s2;
    var s4 := [Incoming(a)] + s3;
    assert s1[1..] == [] && s2[1..] == s1 && s3[1..] == s2 && s4[1..] == s3;
    assert Schedule([], 1, s1) == Admission([c], [c], [], 1);
    assert RemoveFirst([a], a) == [];
    assert Schedule([a], 1, s2) == Admission([c], [c], [], 2);
    assert Schedule([a], 1, s3) == Admission([c], [c], [b], 3);
    assert Registered([], 1, Incoming(a)) == [a];
    assert AdmittedBy([], 1, Incoming(a)) == [a];
    assert RejectedBy([], 1, Incoming(a)) == [];
    assert Schedule([], 1, s4) == Admission([c], [a, c], [b], 4);
    assert s4 == [Incoming(a), Incoming(b), Departure(a), Incoming(c)];
  }

  class Server {
    const port: int
    const capacity: nat
    var running: bool
    var listener: Listener
    var poolOpen: bool           // the session thread pool still accepts work
    var sessions: seq<SessionId>

    /** `new ArrayList<>(capacity)` rejects a negative capacity, hence `nat`. */
    constructor (port: int, capacity: nat)
      ensures this.port == port && this.capacity == capacity
      ensures !running && listener == Unbound && poolOpen && sessions == []
    {
      this.port := port;
      this.capacity := capacity;
      running := false;
      listener := Unbound;
      poolOpen := true;
      sessions := [];
    }

    /** Registers a session; called by the session itself as it starts. */
    method OnConnected(s: SessionId)
      modifies this`sessions
      ensures sessions == old(sessions) + [s]
    {
      sessions := sessions + [s];
    }

    /** Unregisters a session; called by the session itself as it ends. */
    method OnDisconnected(s: SessionId)
      modifies this`sessions
      ensures sessions == RemoveFirst(old(sessions), s)
    {
      sessions := RemoveFirst(sessions, s);
    }

    /**
     * Stops the accept loop at its next check, closes the listening socket and
     * the thread pool. Sessions already running are left alone. The listening
     * socket must exist: the source dereferences it.
     */
    method Shutdown()
      requires listener != Unbound
      modifies this`running, this`listener, this`poolOpen
      ensures !running && listener == Closed && !poolOpen
    {
      running := false;
      listener := Closed;
      poolOpen := false;
    }

    /**
     * Binds the listening socket and runs the accept loop over the schedule
     * `steps`. The loop ends only once a shutdown has cleared `running`; the
     * server then calls `shutdown` once more, as the source does after its
     * loop. A schedule that ends without a shutdown ends the observation with
     * the server still accepting. Submitting to a pool already shut down
     * would throw, so the pool must still be open.
     */
    method Run(steps: seq<Step>) returns (admitted: seq<SessionId>, rejected: seq<SessionId>, taken: nat)
      requires poolOpen
      modifies this`running, this`listener, this`poolOpen, this`sessions
      ensures var r := Schedule(old(sessions), capacity, steps);
              sessions == r.sessions && admitted == r.admitted && rejected == r.rejected && taken == r.taken
      ensures old(|sessions|) <= capacity ==> |sessions| <= capacity
      ensures ShutdownCall in steps ==> !running && listener == Closed && !poolOpen
      ensures ShutdownCall !in steps ==> running && listener == Listening && poolOpen
    {
      ghost var spec := Schedule(sessions, capacity, steps);
      ghost var fits := |sessions| <= capacity;
      listener := Listening;
      running := true;
      admitted, rejected, taken := [], [], 0;
      while running && taken < |steps|
        invariant taken <= |steps|
        invariant running ==> listener == Listening && poolOpen
        invariant running ==> forall i :: 0 <= i < taken ==> steps[i] != ShutdownCall
        invariant !running ==> listener == Closed && !poolOpen && 0 < taken && steps[taken - 1] == ShutdownCall
        invariant running ==> Resumes(spec, sessions, capacity, steps, taken, admitted, rejected)
        invariant !running ==> spec == Admission(sessions, admitted, rejected, taken)
        invariant fits ==> |sessions| <= capacity
        decreases |steps| - taken
      {
        if steps[taken] != ShutdownCall {
          ScheduleAdvance(spec, sessions, capacity, steps, taken, admitted, rejected);
        } else {
          assert steps[taken..][0] == ShutdownCall;
        }
        ghost var before, admittedBefore, rejectedBefore := sessions, admitted, rejected;
        match steps[taken] {
        case Incoming(id) =>
          if |sessions| < capacity {
            // the session is built and scheduled; its run registers it first
            admitted := admitted + [id];
            OnConnected(id);
          } else {
            // the server is full: the socket is closed, no session is built
            rejected := rejected + [id];
          }
        case AcceptFailed =>
        case Departure(id) =>
          OnDisconnected(id);
        case ShutdownCall =>
          // another thread's `shutdown`; the blocked accept then fails
          Shutdown();
        }
        assert steps[taken] != ShutdownCall ==>
                 sessions == Registered(before, capacity, steps[taken]) &&
                 admitted == admittedBefore + AdmittedBy(before, capacity, steps[taken]) &&
                 rejected == rejectedBefore + RejectedBy(before, capacity, steps[taken]);
        taken := taken + 1;
      }
      if running {
        assert steps[taken..] == [];
      } else {
        assert steps[taken - 1] in steps;
        Shutdown();
      }
    }
  }
}

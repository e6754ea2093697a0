/**
 The staggered race of lib/database.ml: remote addresses are dialled one after another, a
 quarter of a second apart, and the first connection to come up wins.

 The clock, the sockets and every exception are left open. The loop has no bound of its own,
 so it is followed for `fuel` turns; everything stated also holds where it is cut short.
 */
module ConnectionRace {
  import opened Counting
  import opened Wrappers

  const DELAY: real := 0.25

  datatype Polling = PollingOk | PollingFailed | PollingReading | PollingWriting

  datatype Kind = Transient | Timeout | Validation | Authentication | Sql | Internal

  predicate Retryable(kind: Kind) {
    kind == Transient || kind == Timeout
  }

  datatype Result = Connected(id: nat) | Failure(kind: Kind)

  /** How a piece of the operation ends: with a value, or with an exception. */
  datatype Outcome<T> = Returned(value: T) | Raised

  datatype Inspection = Winner(id: nat) | Fatal(kind: Kind) | Continue(ready: seq<nat>, lastFailure: Option<Kind>)

  /** What one pending connection is found to be. */
  datatype Verdict = Wins | Ends(kind: Kind) | Fails(kind: Kind) | Waits

  /** The arguments of the loop: what is pending, the next target, when it is due, and the last failure. */
  datatype State = State(pending: seq<nat>, next: nat, nextLaunch: real, lastFailure: Option<Kind>)

  datatype Step = Go(state: State) | End(outcome: Outcome<Result>)

  /** A connection that was started: for which target, when, and whether no other was open. */
  datatype Launch = Launch(target: nat, at: real, alone: bool)

  /** The numbers of the first `n` connections, once each. */
  ghost function AllIds(n: nat): multiset<nat> {
    if n == 0 then multiset{} else AllIds(n - 1) + multiset{n - 1}
  }

  /** Targets are tried in their order, each at most once. */
  ghost predicate InOrder(started: seq<Launch>, tried: nat) {
    && (forall i | 0 <= i < |started| :: started[i].target < tried)
    && (forall i, j | 0 <= i < j < |started| :: started[i].target < started[j].target)
  }

  /** Two starts are a quarter of a second apart, unless nothing was open at the later one. */
  ghost predicate Staggered(started: seq<Launch>) {
    forall i | 0 < i < |started| :: started[i].at >= started[i - 1].at + DELAY || started[i].alone
  }

  ghost predicate FairSoFar(started: seq<Launch>, tried: nat, targets: nat) {
    InOrder(started, tried) && Staggered(started) && tried <= targets
  }

  /** Every connection of the first `count` is open or was finished, once. */
  ghost predicate AllOnce(live: seq<nat>, finished: seq<nat>, count: nat) {
    multiset(live) + multiset(finished) == AllIds(count)
  }

  ghost predicate KnownStatus(live: seq<nat>, status: map<nat, Polling>) {
    forall i | 0 <= i < |live| :: live[i] in status
  }

  ghost predicate SameItems(pending: seq<nat>, live: seq<nat>) {
    multiset(pending) == multiset(live) && |pending| == |live|
  }

  /** What is still to be inspected and what stays pending are together what is open. */
  ghost predicate Divided(ready: seq<nat>, rest: seq<nat>, live: seq<nat>) {
    multiset(ready) + multiset(rest) == multiset(live)
  }

  function Drop(ids: seq<nat>, id: nat): seq<nat> {
    if |ids| == 0 then [] else (if ids[0] == id then [] else [ids[0]]) + Drop(ids[1..], id)
  }

  class ConnectionRace {
    const targets: nat
    const deadline: real

    var live: seq<nat>
    var status: map<nat, Polling>
    var count: nat

    ghost var started: seq<Launch>
    ghost var finished: seq<nat>
    ghost var tried: nat
    ghost var lastNow: real

    /** Every connection started is open or was finished, once. */
    ghost predicate Accounted()
      reads this
    {
      count == |started| && AllOnce(live, finished, count)
    }

    ghost predicate Fair()
      reads this
    {
      FairSoFar(started, tried, targets)
    }

    /** While connections are pending, the next one is not due before the stagger has passed. */
    ghost predicate Spaced(nextLaunch: real)
      reads this
    {
      |live| > 0 ==> |started| > 0 && nextLaunch >= started[|started| - 1].at + DELAY
    }

    /** A connection has come up in time, and is no longer ours to close. */
    ghost predicate Won(id: nat)
      reads this
    {
      && id in status && status[id] == PollingOk && lastNow < deadline
      && multiset(live) + multiset(finished) + multiset{id} == AllIds(|started|)
    }

    ghost predicate Known()
      reads this
    {
      KnownStatus(live, status)
    }

    constructor (targets: nat, deadline: real)
      ensures this.targets == targets && this.deadline == deadline
      ensures live == [] && started == [] && finished == [] && tried == 0 && count == 0
    {
      this.targets, this.deadline := targets, deadline;
      live, status, count := [], map[], 0;
      started, finished, tried := [], [], 0;
      lastNow := 0.0;
    }

    method Now() returns (now: real)
      modifies this`lastNow
      ensures lastNow == now
    {
      now := *;
      lastNow := now;
    }

    /** `forget`. */
    method Forget(id: nat)
      requires Accounted() && Known() && id in live
      modifies this`live
      ensures Known() && multiset(live) == multiset(old(live)) - multiset{id} && |live| < |old(live)|
    {
      OpenOnce(live, finished, |started|, id);
      DropOne(live, id);
      DropKnown(live, id, status);
      live := Drop(live, id);
    }

    /** `close`; an exception from the library is ignored. */
    method Close(id: nat)
      requires Accounted() && Known() && id in live
      modifies this`live, this`finished
      ensures Accounted() && Known() && multiset(live) == multiset(old(live)) - multiset{id} && |live| < |old(live)|
    {
      Forget(id);
      finished := finished + [id];
    }

    /** `close_all`. */
    method CloseAll()
      modifies this`live, this`finished
      ensures live == [] && finished == old(finished) + old(live)
    {
      var pending := live;
      live := [];
      for i := 0 to |pending|
        invariant live == [] && finished == old(finished) + pending[..i]
      {
        finished := finished + [pending[i]];
        assert pending[..i + 1] == pending[..i] + [pending[i]];
      }
      assert pending[..|pending|] == pending;
    }

    /** A new connection is open, and waits to be written to. */
    method Open(ghost launch: Launch) returns (id: nat)
      requires Accounted() && Known()
      modifies this`live, this`status, this`count, this`started
      ensures Accounted() && Known() && id == |old(started)|
      ensures live == [id] + old(live) && started == old(started) + [launch]
    {
      OneMore(live, finished, count, status);
      id := count;
      started := started + [launch];
      live := [id] + live;
      status := status[id := PollingWriting];
      count := count + 1;
    }

    /** `start`: a connection that cannot be live leaves nothing behind. */
    method Start(target: nat, now: real) returns (r: Option<nat>, kind: Kind)
      requires Accounted() && Known() && Fair() && target == tried < targets
      requires Due(now)
      modifies this`live, this`status, this`count, this`started, this`tried
      ensures Accounted() && Known() && Fair() && tried == target + 1
      ensures r.None? ==> live == old(live) && started == old(started)
      ensures r.Some? ==> r.value == |old(started)| && live == [r.value] + old(live)
      ensures r.Some? ==> started == old(started) + [Launch(target, now, |old(live)| == 0)]
    {
      kind := *;
      ghost var launch := Launch(target, now, |live| == 0);
      LaunchKeeps(started, launch, target, |live|);
      tried := tried + 1;
      var opens: bool := *;
      if !opens { return None, kind; }
      var id := Open(launch);
      r := Some(id);
    }

    /** `polling_ok_before_deadline`; configuring the connection may raise. */
    method PollingOkBeforeDeadline() returns (r: Outcome<bool>)
      modifies this`lastNow
      ensures r == Returned(true) ==> lastNow < deadline
    {
      var now := Now();
      if now >= deadline { return Returned(false); }
      var raises: bool := *;
      if raises { return Raised; }
      now := Now();
      r := Returned(now < deadline);
    }

    /** What `inspect` does with one pending connection. */
    method Examine(id: nat) returns (r: Outcome<Verdict>)
      requires Accounted() && Known() && id in live
      modifies this`live, this`finished, this`lastNow
      ensures r == Returned(Wins) ==> Won(id)
      ensures r != Returned(Wins) ==> Accounted() && Known() && |live| <= |old(live)|
      ensures r == Returned(Waits) ==> live == old(live)
      ensures r.Returned? && r.value.Fails? ==> multiset(live) == multiset(old(live)) - multiset{id}
    {
      match status[id]
      case PollingOk =>
        var ok := PollingOkBeforeDeadline();
        if ok.Raised? { return Raised; }
        if !ok.value { return Returned(Ends(Timeout)); }
        Forget(id);
        r := Returned(Wins);
      case PollingFailed =>
        var kind: Kind := *;
        Close(id);
        r := Returned(if Retryable(kind) then Fails(kind) else Ends(kind));
      case _ =>
        r := Returned(Waits);
    }

    /**
     `inspect`: the first pending connection that is up wins; the failed ones before it are
     closed, and a failure that is not worth retrying ends the race.
     */
    method Inspect(pending: seq<nat>, previous: Option<Kind>) returns (r: Outcome<Inspection>)
      requires Accounted() && Known() && multiset(pending) == multiset(live)
      modifies this`live, this`finished, this`lastNow
      ensures r.Returned? && r.value.Winner? ==> Won(r.value.id)
      ensures !(r.Returned? && r.value.Winner?) ==> Accounted() && Known() && |live| <= |old(live)|
      ensures r.Returned? && r.value.Continue? ==> multiset(r.value.ready) == multiset(live)
    {
      var ready: seq<nat>, lastFailure := [], previous;
      for i := 0 to |pending|
        invariant Accounted() && Known() && |live| <= |old(live)|
        invariant Divided(ready, pending[i..], live)
      {
        var id := pending[i];
        NextPending(ready, pending, i, live);
        ghost var before := live;
        var verdict := Examine(id);
        if verdict.Raised? { return Raised; }
        match verdict.value
        case Wins => return Returned(Winner(id));
        case Ends(kind) => return Returned(Fatal(kind));
        case Fails(kind) =>
          PendingFailed(ready, pending, i, before, live);
          lastFailure := Some(kind);
        case Waits =>
          ready := ready + [id];
      }
      AllInspected(ready, pending, live);
      r := Returned(Continue(ready, lastFailure));
    }

    /** The connections whose sockets are ready are polled in turn; polling may raise. */
    method Poll(pending: seq<nat>) returns (raised: bool)
      requires Known() && multiset(pending) == multiset(live)
      modifies this`status
      ensures Known()
    {
      for i := 0 to |pending|
        invariant Known()
      {
        assert pending[i] in multiset(live);
        var polling := status[pending[i]];
        var ready: bool := *;
        if ready && (polling == PollingReading || polling == PollingWriting) {
          var raises: bool := *;
          if raises { return true; }
          polling := *;
          status := status[pending[i] := polling];
        }
      }
      raised := false;
    }

    ghost predicate Racing(s: State)
      reads this
    {
      && Accounted() && Known() && Fair() && Spaced(s.nextLaunch)
      && SameItems(s.pending, live) && s.next == tried
    }

    /** With one more connection open and pending the race goes on, the next start a stagger later. */
    lemma RacingOn(s: State, before: seq<nat>, id: nat, now: real)
      requires Accounted() && Known() && Fair() && s.next + 1 == tried
      requires SameItems(s.pending, before) && live == [id] + before
      requires |started| > 0 && started[|started| - 1].at == now
      ensures Racing(State(s.pending + [id], s.next + 1, now + DELAY, s.lastFailure))
    {
      OnePending(s.pending, before, id);
    }

    ghost predicate Due(now: real)
      reads this
    {
      |live| == 0 || (|started| > 0 && now >= started[|started| - 1].at + DELAY)
    }

    lemma IsDue(s: State, now: real)
      requires Racing(s) && (|s.pending| == 0 || now >= s.nextLaunch)
      ensures Due(now)
    {}

    /** With nothing more open the race goes on, and the next start is due at once. */
    lemma RacingStill(s: State, now: real, kind: Kind)
      requires Accounted() && Known() && Fair() && s.next + 1 == tried && SameItems(s.pending, live) && Due(now)
      ensures Racing(State(s.pending, s.next + 1, now, Some(kind)))
    {}

    /** With some connections closed the race goes on. */
    lemma RacingWith(s: State, ready: seq<nat>, failure: Option<Kind>)
      requires Accounted() && Known() && Fair() && Spaced(s.nextLaunch) && s.next == tried
      requires multiset(ready) == multiset(live)
      ensures Racing(s.(pending := ready, lastFailure := failure))
    {
      SameSize(ready, live);
    }

    /** Try the next target; the race goes on from either outcome, if it goes on. */
    method StartNext(s: State, now: real) returns (candidate: Option<nat>, kind: Kind)
      requires Racing(s) && s.next < targets && (|s.pending| == 0 || now >= s.nextLaunch)
      modifies this`live, this`status, this`count, this`started, this`tried
      ensures Accounted() && Fair()
      ensures candidate.Some? ==> Racing(State(s.pending + [candidate.value], s.next + 1, now + DELAY, s.lastFailure))
      ensures candidate.None? ==> Racing(State(s.pending, s.next + 1, now, Some(kind)))
    {
      IsDue(s, now);
      candidate, kind := Start(s.next, now);
      if candidate.Some? {
        RacingOn(s, old(live), candidate.value, now);
      } else {
        RacingStill(s, now, kind);
      }
    }

    /** The next target is tried now. */
    method LaunchNext(s: State, now: real) returns (r: Step)
      requires Racing(s) && s.next < targets && (|s.pending| == 0 || now >= s.nextLaunch)
      modifies this`live, this`status, this`count, this`started, this`tried
      ensures Accounted() && Fair() && (r.Go? ==> Racing(r.state))
      ensures r.End? ==> r.outcome.Returned? && r.outcome.value.Failure?
    {
      var candidate, kind := StartNext(s, now);
      if candidate.Some? {
        r := Go(State(s.pending + [candidate.value], s.next + 1, now + DELAY, s.lastFailure));
      } else if Retryable(kind) {
        r := Go(State(s.pending, s.next + 1, now, Some(kind)));
      } else {
        r := End(Returned(Failure(kind)));
      }
    }

    /** Nothing to start yet: wait for the sockets until the next start or the deadline. Asking for them may raise. */
    method Wait(s: State, now: real) returns (raised: bool)
      requires Racing(s)
      modifies this`status
      ensures Racing(s)
    {
      var remainingTime := deadline - now;
      var launchWait := if s.next >= targets then remainingTime
                        else if s.nextLaunch > now then s.nextLaunch - now else 0.0;
      var wait := if remainingTime < launchWait then remainingTime else launchWait;
      raised := *;
      if raised || wait <= 0.0 { return; }
      var interrupted: bool := *;
      if !interrupted {
        raised := Poll(s.pending);
      }
    }

    /** The part of a turn after nothing has won. */
    method Advance(s: State) returns (r: Step)
      requires Racing(s)
      modifies this`live, this`status, this`count, this`started, this`tried, this`lastNow
      ensures Accounted() && Fair() && (r.Go? ==> Racing(r.state))
      ensures r.End? && r.outcome.Returned? ==> r.outcome.value.Failure?
    {
      var now := Now();
      if s.next < targets && (|s.pending| == 0 || now >= s.nextLaunch) {
        r := LaunchNext(s, now);
      } else if s.next >= targets && |s.pending| == 0 {
        r := End(Returned(Failure(if s.lastFailure.Some? then s.lastFailure.value else Timeout)));
      } else {
        var raised := Wait(s, now);
        r := if raised then End(Raised) else Go(s);
      }
    }

    /** What the pending connections have come to: one has won, the race is over, or it goes on. */
    method Survey(s: State) returns (r: Outcome<Inspection>)
      requires Racing(s)
      modifies this`live, this`finished, this`lastNow
      ensures Fair()
      ensures if r.Returned? && r.value.Winner? then Won(r.value.id) else Accounted()
      ensures r.Returned? && r.value.Continue? ==> Racing(s.(pending := r.value.ready, lastFailure := r.value.lastFailure))
    {
      r := Inspect(s.pending, s.lastFailure);
      if r.Returned? && r.value.Continue? { RacingWith(s, r.value.ready, r.value.lastFailure); }
    }

    /** A turn before the deadline. */
    method InspectAndAdvance(s: State) returns (r: Step)
      requires Racing(s)
      modifies this
      ensures Fair() && (r.Go? ==> Racing(r.state))
      ensures r.End? ==> if r.outcome.Returned? && r.outcome.value.Connected? then Won(r.outcome.value.id) else Accounted()
    {
      var inspected := Survey(s);
      if inspected.Raised? {
        r := End(Raised);
      } else if inspected.value.Winner? {
        r := End(Returned(Connected(inspected.value.id)));
      } else if inspected.value.Fatal? {
        r := End(Returned(Failure(inspected.value.kind)));
      } else {
        r := Advance(s.(pending := inspected.value.ready, lastFailure := inspected.value.lastFailure));
      }
    }

    /** One turn of `loop`. */
    method Turn(s: State) returns (r: Step)
      requires Racing(s)
      modifies this
      ensures Fair() && (r.Go? ==> Racing(r.state))
      ensures r.End? ==> if r.outcome.Returned? && r.outcome.value.Connected? then Won(r.outcome.value.id) else Accounted()
    {
      var now := Now();
      if now >= deadline {
        r := End(Returned(Failure(Timeout)));
      } else {
        r := InspectAndAdvance(s);
      }
    }

    /** `operation`, for at most `fuel` turns of its loop. */
    method Operate(fuel: nat) returns (r: Option<Outcome<Result>>)
      requires live == [] && started == [] && finished == [] && tried == 0 && count == 0
      modifies this
      ensures Fair()
      ensures if r.Some? && r.value.Returned? && r.value.value.Connected? then Won(r.value.value.id) else Accounted()
    {
      var now := Now();
      var s, turns := State([], 0, now, None), fuel;
      while turns > 0
        invariant Racing(s)
        decreases turns
      {
        turns := turns - 1;
        var step := Turn(s);
        if step.End? { return Some(step.outcome); }
        s := step.state;
      }
      r := None;
    }

    /**
     `race_remote_connections`. Whatever the clock, the sockets and the library do: when it
     returns, the connection it returns is up and is the only one left, and every other one
     that was started has been finished, once. Targets are tried in order, a quarter of a
     second apart unless nothing is pending.
     */
    method Race(fuel: nat) returns (r: Option<Result>)
      requires live == [] && started == [] && finished == [] && tried == 0 && count == 0
      modifies this
      ensures InOrder(started, tried) && tried <= targets && Staggered(started)
      ensures r.Some? ==> live == []
      ensures r.Some? && r.value.Connected? ==>
                var id := r.value.id;
                && id in status && status[id] == PollingOk && lastNow < deadline
                && multiset(finished) + multiset{id} == AllIds(|started|)
      ensures r.Some? && r.value.Failure? ==> multiset(finished) == AllIds(|started|)
      ensures r.None? ==> multiset(live) + multiset(finished) == AllIds(|started|)
    {
      var outcome := Operate(fuel);
      if outcome.None? { return None; }
      CloseAll();
      if outcome.value.Returned? { return Some(outcome.value.value); }
      var kind: Kind := *;
      r := Some(Failure(kind));
    }
  }

  // ----- Counting connections -----

  lemma {:induction false} IdOnce(n: nat, id: nat)
    ensures AllIds(n)[id] == if id < n then 1 else 0
  {
    if n > 0 { IdOnce(n - 1, id); }
  }

  lemma OpenOnce(live: seq<nat>, finished: seq<nat>, n: nat, id: nat)
    requires multiset(live) + multiset(finished) == AllIds(n) && id in live
    ensures multiset(live)[id] == 1
  {
    IdOnce(n, id);
    assert id in multiset(live);
  }

  lemma OnePending(pending: seq<nat>, live: seq<nat>, id: nat)
    requires SameItems(pending, live)
    ensures SameItems(pending + [id], [id] + live)
  {
    assert multiset([id] + live) == multiset{id} + multiset(live);
  }

  lemma NextPending(ready: seq<nat>, pending: seq<nat>, i: nat, live: seq<nat>)
    requires i < |pending| && Divided(ready, pending[i..], live)
    ensures pending[i] in live && Divided(ready + [pending[i]], pending[i + 1..], live)
  {
    assert pending[i..] == [pending[i]] + pending[i + 1..];
    assert pending[i] in multiset(live);
  }

  lemma PendingFailed(ready: seq<nat>, pending: seq<nat>, i: nat, before: seq<nat>, after: seq<nat>)
    requires i < |pending| && Divided(ready, pending[i..], before)
    requires multiset(after) == multiset(before) - multiset{pending[i]}
    ensures Divided(ready, pending[i + 1..], after)
  {
    assert pending[i..] == [pending[i]] + pending[i + 1..];
  }

  lemma AllInspected(ready: seq<nat>, pending: seq<nat>, live: seq<nat>)
    requires Divided(ready, pending[|pending|..], live)
    ensures multiset(ready) == multiset(live)
  {
  }

  lemma OneMore(live: seq<nat>, finished: seq<nat>, count: nat, status: map<nat, Polling>)
    requires AllOnce(live, finished, count) && KnownStatus(live, status)
    ensures AllOnce([count] + live, finished, count + 1)
    ensures KnownStatus([count] + live, status[count := PollingWriting])
  {
    assert multiset([count] + live) == multiset{count} + multiset(live);
  }

  lemma {:induction false} DropAbsent(ids: seq<nat>, id: nat)
    requires id !in ids
    ensures Drop(ids, id) == ids
  {
    if |ids| > 0 { DropAbsent(ids[1..], id); }
  }

  lemma {:induction false} DropOne(ids: seq<nat>, id: nat)
    requires multiset(ids)[id] == 1
    ensures multiset(Drop(ids, id)) == multiset(ids) - multiset{id} && id !in Drop(ids, id)
    ensures |Drop(ids, id)| < |ids|
  {
    assert ids == [ids[0]] + ids[1..];
    if ids[0] == id {
      assert id !in multiset(ids[1..]);
      DropAbsent(ids[1..], id);
    } else {
      DropOne(ids[1..], id);
    }
  }

  lemma {:induction false} DropKnown(ids: seq<nat>, id: nat, status: map<nat, Polling>)
    requires KnownStatus(ids, status)
    ensures KnownStatus(Drop(ids, id), status)
  {
    if |ids| > 0 { DropKnown(ids[1..], id, status); }
  }

  lemma LaunchKeeps(started: seq<Launch>, launch: Launch, tried: nat, open: nat)
    requires InOrder(started, tried) && Staggered(started) && launch.target == tried && launch.alone == (open == 0)
    requires open == 0 || (|started| > 0 && launch.at >= started[|started| - 1].at + DELAY)
    ensures InOrder(started, tried + 1) && InOrder(started + [launch], tried + 1) && Staggered(started + [launch])
  {
  }

  /** With a connection returned, each of the others was finished once and it was not. */
  lemma OthersFinishedOnce(finished: seq<nat>, n: nat, winner: nat, id: nat)
    requires multiset(finished) + multiset{winner} == AllIds(n)
    ensures winner < n && multiset(finished)[id] == if id < n && id != winner then 1 else 0
  {
    IdOnce(n, id);
    IdOnce(n, winner);
    assert winner in multiset{winner};
  }
}

/**
 The bridge's queue of Telegram updates: one worker, and a memory of recent update ids.

 A method runs from one suspension point of the event loop to the next; `worker` says at
 which `await` the worker is suspended. Logging may throw at any time.
 */
module InboundQueue {
  import opened Wrappers

  const QUEUE_CAPACITY: nat := 100
  const DEDUPE_CAPACITY: nat := 10_000
  const DEDUPE_TTL_MS: int := 86_400_000

  datatype Job = Job(updateId: int, text: Option<string>, voice: Option<string>)

  predicate Deliverable(job: Job) {
    job.text.Some? || job.voice.Some?
  }

  datatype EnqueueResult = IsAccepted | IsDuplicate | IsFull

  /** An id the queue remembers, and when it was accepted. */
  datatype Entry = Entry(updateId: int, at: int)

  /** One acceptance; `peak` is the latest time any caller had given by then. */
  datatype Acceptance = Acceptance(job: Job, at: int, peak: int)

  datatype Worker = Idle | Forwarding(job: Job) | ConfirmingForward(job: Job) | ConfirmingFailure(job: Job)

  /** What the worker asks of the outside. */
  datatype Call = Forward(job: Job) | ConfirmForwarded | ConfirmFailed

  function Jobs(accepted: seq<Acceptance>): (jobs: seq<Job>)
    ensures |jobs| == |accepted|
    ensures forall i | 0 <= i < |accepted| :: jobs[i] == accepted[i].job
  {
    seq(|accepted|, i requires 0 <= i < |accepted| => accepted[i].job)
  }

  function Remembered(accepted: seq<Acceptance>): (entries: seq<Entry>)
    ensures |entries| == |accepted|
    ensures forall i | 0 <= i < |accepted| :: entries[i] == Entry(accepted[i].job.updateId, accepted[i].at)
  {
    seq(|accepted|, i requires 0 <= i < |accepted| => Entry(accepted[i].job.updateId, accepted[i].at))
  }

  /** The jobs that the worker has asked to forward, in order. */
  function Forwarded(calls: seq<Call>): seq<Job> {
    if |calls| == 0 then []
    else
      var earlier := Forwarded(calls[..|calls| - 1]);
      match calls[|calls| - 1]
      case Forward(job) => earlier + [job]
      case _ => earlier
  }

  function DeliverableOf(jobs: seq<Job>): seq<Job> {
    if |jobs| == 0 then []
    else
      var earlier := DeliverableOf(jobs[..|jobs| - 1]);
      if Deliverable(jobs[|jobs| - 1]) then earlier + [jobs[|jobs| - 1]] else earlier
  }

  /** An acceptance is forgotten only for its age, or after as many others as the memory holds. */
  predicate MayForget(accepted: seq<Acceptance>, i: nat, clock: int)
    requires i < |accepted|
  {
    clock - accepted[i].at > DEDUPE_TTL_MS || |accepted| - i > DEDUPE_CAPACITY
  }

  /** Two acceptances of one id are far apart in time or in number. */
  predicate FarApart(accepted: seq<Acceptance>, i: nat, j: nat)
    requires i < j < |accepted|
  {
    accepted[j].peak - accepted[i].at > DEDUPE_TTL_MS || j - i - 1 >= DEDUPE_CAPACITY
  }

  predicate SameId(accepted: seq<Acceptance>, i: nat, j: nat)
    requires i < j < |accepted|
  {
    accepted[i].job.updateId == accepted[j].job.updateId
  }

  ghost predicate RepeatsFarApart(accepted: seq<Acceptance>) {
    forall i, j | 0 <= i < j < |accepted| && SameId(accepted, i, j) :: FarApart(accepted, i, j)
  }

  /** No caller ever gave an earlier time than one before it. */
  ghost predicate Steady(accepted: seq<Acceptance>) {
    && (forall i | 0 <= i < |accepted| :: AtPeak(accepted, i))
    && (forall i, j | 0 <= i < j < |accepted| :: InOrder(accepted, i, j))
  }

  predicate AtPeak(accepted: seq<Acceptance>, i: nat)
    requires i < |accepted|
  {
    accepted[i].at == accepted[i].peak
  }

  predicate InOrder(accepted: seq<Acceptance>, i: nat, j: nat)
    requires i < j < |accepted|
  {
    accepted[i].at <= accepted[j].at
  }

  /** The id was accepted no more than a day ago, and is among the last the memory can hold. */
  ghost predicate Recent(accepted: seq<Acceptance>, updateId: int, now: int) {
    exists i | 0 <= i < |accepted| :: RecentAt(accepted, i, updateId, now)
  }

  predicate RecentAt(accepted: seq<Acceptance>, i: nat, updateId: int, now: int)
    requires i < |accepted|
  {
    accepted[i].job.updateId == updateId && now - accepted[i].at <= DEDUPE_TTL_MS && |accepted| - i <= DEDUPE_CAPACITY
  }

  /** The memory is the acceptances not yet forgotten, and holds each id once. */
  ghost predicate Memory(accepted: seq<Acceptance>, forgotten: nat, latest: int, seen: seq<Entry>) {
    && forgotten <= |accepted|
    && seen == Remembered(accepted[forgotten..])
    && |seen| <= DEDUPE_CAPACITY + 1
    && Forgettable(accepted, forgotten, latest)
    && Timed(accepted, latest)
    && Distinct(accepted, forgotten)
    && RepeatsFarApart(accepted)
  }

  ghost predicate Forgettable(accepted: seq<Acceptance>, forgotten: nat, latest: int)
    requires forgotten <= |accepted|
  {
    forall i | 0 <= i < forgotten :: MayForget(accepted, i, latest)
  }

  ghost predicate Timed(accepted: seq<Acceptance>, latest: int) {
    forall i | 0 <= i < |accepted| :: InTime(accepted, i, latest)
  }

  predicate InTime(accepted: seq<Acceptance>, i: nat, latest: int)
    requires i < |accepted|
  {
    accepted[i].at <= accepted[i].peak <= latest
  }

  ghost predicate Distinct(accepted: seq<Acceptance>, from: nat) {
    forall i, j | from <= i < j < |accepted| :: !SameId(accepted, i, j)
  }

  /** What the memory keeps of its entries: the oldest go as long as they are too old or too many. */
  function Kept(seen: seq<Entry>, now: int): (kept: seq<Entry>)
    ensures |kept| <= DEDUPE_CAPACITY
    ensures |kept| > 0 ==> now - kept[0].at <= DEDUPE_TTL_MS
  {
    if |seen| > 0 && (now - seen[0].at > DEDUPE_TTL_MS || |seen| > DEDUPE_CAPACITY) then Kept(seen[1..], now) else seen
  }

  predicate Holds(seen: seq<Entry>, updateId: int) {
    exists i | 0 <= i < |seen| :: seen[i].updateId == updateId
  }

  /** Accepted jobs are taken by the worker in order, and the rest are waiting. */
  ghost predicate Queued(accepted: seq<Acceptance>, taken: nat, jobs: seq<Job>, calls: seq<Call>) {
    && taken <= |accepted|
    && jobs == Jobs(accepted)[taken..]
    && |jobs| <= QUEUE_CAPACITY
    && Forwarded(calls) == DeliverableOf(Jobs(accepted)[..taken])
  }

  class InboundQueue {
    var jobs: seq<Job>
    var seen: seq<Entry>
    var running: bool
    var stopping: bool
    var idleWaiters: seq<int>

    /** The `await` at which the worker is suspended. */
    var worker: Worker

    ghost var accepted: seq<Acceptance>
    ghost var forgotten: nat
    ghost var latest: int
    ghost var taken: nat
    ghost var calls: seq<Call>
    ghost var resolved: seq<int>

    /** A throwing log line has ended the worker after `stop`. */
    ghost var stranded: bool

    ghost predicate Remembers()
      reads this
    {
      Memory(accepted, forgotten, latest, seen)
    }

    ghost predicate Conserves()
      reads this
    {
      Queued(accepted, taken, jobs, calls)
    }

    /** Holds whenever the event loop runs: the worker has the job it took last, and no job waits unseen. */
    ghost predicate Progresses()
      reads this
    {
      && (running <==> worker != Idle)
      && (running ==> 0 < taken <= |accepted| && worker.job == accepted[taken - 1].job)
      && (|jobs| > 0 ==> running || stranded)
      && (stranded ==> stopping && !running)
      && (|idleWaiters| > 0 ==> running || |jobs| > 0)
    }

    ghost predicate Valid()
      reads this
    {
      Remembers() && Conserves() && Progresses()
    }

    constructor (now: int)
      ensures Valid() && accepted == [] && jobs == [] && !running && !stopping && calls == [] && seen == []
      ensures latest == now
    {
      jobs, seen, running, stopping, idleWaiters, worker := [], [], false, false, [], Idle;
      accepted, forgotten, latest, taken, calls, resolved, stranded := [], 0, now, 0, [], [], false;
      new;
      assert Jobs([])[0..] == [] && Jobs([])[..0] == [];
      assert Remembered(accepted[0..]) == [];
    }

    /** Forget from the oldest on, as long as an id is too old or there are too many. */
    method Prune(now: int)
      requires Remembers() && latest >= now
      modifies this`seen, this`forgotten
      ensures Remembers() && seen == Kept(old(seen), now)
    {
      while |seen| > 0 && (now - seen[0].at > DEDUPE_TTL_MS || |seen| > DEDUPE_CAPACITY)
        invariant Remembers() && Kept(seen, now) == Kept(old(seen), now)
        decreases |seen|
      {
        OneForgotten(accepted, forgotten, latest, seen);
        seen := seen[1..];
        forgotten := forgotten + 1;
      }
    }

    /** Writing a log line, which may throw. */
    method Log() returns (threw: bool) {
      threw := *;
    }

    /** The worker has ended: whoever waits for the queue to be idle is told. */
    method Settle()
      modifies this`running, this`worker, this`idleWaiters, this`resolved
      ensures !running && worker == Idle && idleWaiters == [] && resolved == old(resolved) + old(idleWaiters)
    {
      running, worker := false, Idle;
      resolved := resolved + idleWaiters;
      idleWaiters := [];
    }

    /** The next job is with the worker and asked for, unless it is undeliverable; with none left the worker has ended. */
    twostate predicate TookNext()
      reads this
    {
      && (|old(jobs)| == 0 ==>
            worker == Idle && jobs == [] && calls == old(calls) && taken == old(taken) && idleWaiters == [])
      && (|old(jobs)| > 0 ==> taken > old(taken))
      && (|old(jobs)| > 0 && Deliverable(old(jobs)[0]) ==>
            && worker == Forwarding(old(jobs)[0]) && jobs == old(jobs)[1..] && taken == old(taken) + 1
            && calls == old(calls) + [Forward(old(jobs)[0])])
    }

    /** This job's failure is being confirmed, and nothing else has changed. */
    twostate predicate ConfirmsFailure(job: Job)
      reads this
    {
      && worker == ConfirmingFailure(job) && jobs == old(jobs) && taken == old(taken)
      && calls == old(calls) + [ConfirmFailed] && idleWaiters == old(idleWaiters)
    }

    /** The worker has ended while stopping, and has left every waiting job where it was. */
    twostate predicate Abandoned()
      reads this
    {
      stopping && stranded && worker == Idle && jobs == old(jobs) && taken == old(taken) && calls == old(calls)
    }

    /** The `finally` of a worker that a throwing log line ended: another one takes over, unless stopping. */
    method Leave()
      requires Conserves() && running && !stranded
      modifies this`jobs, this`taken, this`worker, this`running, this`idleWaiters, this`resolved, this`calls, this`stranded
      ensures Conserves() && Progresses() && taken >= old(taken)
      ensures stopping ==> Abandoned()
      ensures !stopping ==> TookNext() && !stranded
      ensures idleWaiters == []
      decreases |jobs|, 2
    {
      Settle();
      stranded := stopping;
      if |jobs| > 0 && !stopping {
        Run();
      }
    }

    /** `run`, up to its first `await`. */
    method Run()
      requires Conserves() && !stranded && (running ==> Progresses()) && (!running ==> idleWaiters == [])
      modifies this`jobs, this`taken, this`worker, this`running, this`idleWaiters, this`resolved, this`calls, this`stranded
      ensures Conserves() && Progresses() && taken >= old(taken) && (!stopping ==> !stranded)
      ensures old(running) ==> jobs == old(jobs) && worker == old(worker) && calls == old(calls) && taken == old(taken)
                               && idleWaiters == old(idleWaiters) && stranded == old(stranded)
      ensures !old(running) ==> TookNext() && idleWaiters == []
      ensures !old(running) && |old(jobs)| <= 1 ==> jobs == []
      decreases |jobs|, 1
    {
      if running { return; }
      running := true;
      var threw := NextJob();
    }

    /** From the head of the worker's loop to its next `await`; `threw` if reporting an undeliverable job threw. */
    method NextJob() returns (ghost threw: bool)
      requires Conserves() && running && !stranded
      modifies this`jobs, this`taken, this`worker, this`running, this`idleWaiters, this`resolved, this`calls, this`stranded
      ensures Conserves() && Progresses() && TookNext() && (!stopping ==> !stranded)
      ensures |old(jobs)| == 0 ==> resolved == old(resolved) + old(idleWaiters)
      ensures threw ==> |old(jobs)| > 0 && !Deliverable(old(jobs)[0])
      ensures stranded ==> threw
      ensures |old(jobs)| > 0 && !Deliverable(old(jobs)[0]) && !threw ==>
                worker == ConfirmingFailure(old(jobs)[0]) && jobs == old(jobs)[1..] && calls == old(calls) + [ConfirmFailed]
      ensures threw && stopping ==> worker == Idle && jobs == old(jobs)[1..] && calls == old(calls)
      ensures |old(jobs)| <= 1 ==> jobs == []
      ensures old(idleWaiters) == [] ==> idleWaiters == []
      decreases |jobs|, 0
    {
      threw := false;
      if |jobs| == 0 {
        Settle();
        return;
      }
      var job := jobs[0];
      OneTaken(accepted, taken, jobs, calls);
      jobs := jobs[1..];
      taken := taken + 1;
      if Deliverable(job) {
        calls := calls + [Forward(job)];
        worker := Forwarding(job);
      } else {
        threw := Failed(job);
      }
    }

    /** The `catch`: log the failure, and ask for it to be confirmed; `threw` if that log line threw. */
    method Failed(job: Job) returns (ghost threw: bool)
      requires Conserves() && running && !stranded && taken > 0 && job == accepted[taken - 1].job
      modifies this`jobs, this`taken, this`worker, this`running, this`idleWaiters, this`resolved, this`calls, this`stranded
      ensures Conserves() && Progresses() && taken >= old(taken) && (!stopping ==> !stranded)
      ensures !threw ==> ConfirmsFailure(job) && !stranded
      ensures threw ==> if stopping then Abandoned() else TookNext()
      ensures old(idleWaiters) == [] ==> idleWaiters == []
      decreases |jobs|, 3
    {
      var throws := Log();
      threw := throws;
      if throws {
        Leave();
      } else {
        OneAsked(accepted, taken, jobs, calls, ConfirmFailed);
        calls := calls + [ConfirmFailed];
        worker := ConfirmingFailure(job);
      }
    }

    /** The forwarding has succeeded or failed. */
    method AfterForward(succeeded: bool) returns (ghost threw: bool)
      requires Valid() && worker.Forwarding?
      modifies this`jobs, this`taken, this`worker, this`running, this`idleWaiters, this`resolved, this`calls, this`stranded
      ensures Valid() && taken >= old(taken) && (threw ==> !succeeded) && (stranded ==> stopping && threw)
      ensures succeeded ==>
                worker == ConfirmingForward(old(worker).job) && jobs == old(jobs) && taken == old(taken)
                && calls == old(calls) + [ConfirmForwarded] && idleWaiters == old(idleWaiters)
      ensures !succeeded && !threw ==> ConfirmsFailure(old(worker).job)
      ensures threw ==> if stopping then Abandoned() else TookNext()
    {
      threw := false;
      if succeeded {
        OneAsked(accepted, taken, jobs, calls, ConfirmForwarded);
        calls := calls + [ConfirmForwarded];
        worker := ConfirmingForward(worker.job);
      } else {
        threw := Failed(worker.job);
      }
    }

    /**
     The confirmation of a forwarding has succeeded or failed. It is `reported` if it has
     succeeded and its log line has not thrown; anything else is a failure of the job.
     */
    method AfterConfirmation(succeeded: bool) returns (ghost reported: bool, ghost threw: bool)
      requires Valid() && worker.ConfirmingForward?
      modifies this`jobs, this`taken, this`worker, this`running, this`idleWaiters, this`resolved, this`calls, this`stranded
      ensures Valid() && taken >= old(taken) && (reported ==> succeeded) && (stranded ==> stopping && threw)
      ensures reported ==> TookNext()
      ensures !reported && !threw ==> ConfirmsFailure(old(worker).job)
      ensures !reported && threw ==> if stopping then Abandoned() else TookNext()
    {
      var failed := !succeeded;
      if succeeded { failed := Log(); }
      reported := !failed;
      if failed { threw := Failed(worker.job); } else { threw := NextJob(); }
    }

    /** The confirmation of a failure has succeeded or failed; `threw` if the log line about its failure threw. */
    method AfterFailure(succeeded: bool) returns (ghost threw: bool)
      requires Valid() && worker.ConfirmingFailure?
      modifies this`jobs, this`taken, this`worker, this`running, this`idleWaiters, this`resolved, this`calls, this`stranded
      ensures Valid() && taken >= old(taken) && (threw ==> !succeeded) && (stranded ==> stopping)
      ensures !threw || !stopping ==> TookNext()
      ensures threw && stopping ==> Abandoned()
    {
      var throws := false;
      if !succeeded { throws := Log(); }
      threw := throws;
      if throws {
        Leave();
      } else {
        ghost var later := NextJob();
      }
    }

    /**
     The awaited action has succeeded or failed, and the worker runs to its next `await`.
     Unless it is ended by a throwing log line while stopping, it goes on with this job or the next.
     */
    method Resume(succeeded: bool)
      requires Valid() && worker != Idle
      modifies this`jobs, this`taken, this`worker, this`running, this`idleWaiters, this`resolved, this`calls, this`stranded
      ensures Valid() && taken >= old(taken) && (stranded ==> stopping)
      ensures old(worker).Forwarding? && succeeded ==>
                worker == ConfirmingForward(old(worker).job) && jobs == old(jobs) && calls == old(calls) + [ConfirmForwarded]
      ensures !old(worker).ConfirmingFailure? && !succeeded && !stranded ==> ConfirmsFailure(old(worker).job) || TookNext()
      ensures old(worker).ConfirmingForward? && succeeded && !stranded ==> ConfirmsFailure(old(worker).job) || TookNext()
      ensures old(worker).ConfirmingFailure? && !stranded ==> TookNext()
    {
      match worker
      case Forwarding(_) =>
        ghost var threw := AfterForward(succeeded);
      case ConfirmingForward(_) =>
        ghost var reported, threw := AfterConfirmation(succeeded);
      case ConfirmingFailure(_) =>
        ghost var threw := AfterFailure(succeeded);
    }

    /** `stop`, up to its `await`: no more is accepted, and the caller waits unless the queue is idle. */
    method Stop(waiter: int)
      requires Valid()
      modifies this`stopping, this`idleWaiters
      ensures Valid() && stopping
      ensures idleWaiters == old(idleWaiters) + (if running || |jobs| > 0 then [waiter] else [])
    {
      stopping := true;
      if !running && |jobs| == 0 { return; }
      idleWaiters := idleWaiters + [waiter];
    }

    /** Whether the queue remembers an id, once it has forgotten what it may. */
    method Knows(updateId: int, now: int) returns (known: bool)
      requires Remembers()
      modifies this`seen, this`forgotten, this`latest
      ensures Remembers() && seen == Kept(old(seen), now)
      ensures latest == if now > old(latest) then now else old(latest)
      ensures known <==> Holds(seen, updateId)
      ensures Steady(accepted) && now >= old(latest) ==> (known <==> Recent(accepted, updateId, now))
    {
      if now > latest {
        TimePasses(accepted, forgotten, latest, now, seen);
        latest := now;
      }
      Prune(now);
      if Steady(accepted) && now == latest {
        KeptAreRecent(accepted, forgotten, now, seen, updateId);
      }
      known := exists i | 0 <= i < |seen| :: seen[i].updateId == updateId;
    }

    method Admit(job: Job, now: int)
      requires Remembers() && Conserves() && |seen| <= DEDUPE_CAPACITY && |jobs| < QUEUE_CAPACITY && now <= latest
      requires !Holds(seen, job.updateId)
      modifies this`seen, this`jobs, this`accepted
      ensures Remembers() && Conserves()
      ensures jobs == old(jobs) + [job] && accepted == old(accepted) + [Acceptance(job, now, latest)]
      ensures seen == old(seen) + [Entry(job.updateId, now)]
    {
      ghost var a := Acceptance(job, now, latest);
      OneRemembered(accepted, forgotten, a, seen);
      OneQueued(accepted, taken, jobs, calls, a);
      seen := seen + [Entry(job.updateId, now)];
      jobs := jobs + [job];
      accepted := accepted + [a];
    }

    /** Take the job in, and wake the worker. */
    method Accept(job: Job, now: int)
      requires Remembers() && Conserves() && Progresses() && now <= latest
      requires |seen| <= DEDUPE_CAPACITY && |jobs| < QUEUE_CAPACITY && !stopping && !Holds(seen, job.updateId)
      modifies this`seen, this`accepted
      modifies this`jobs, this`taken, this`worker, this`running, this`idleWaiters, this`resolved, this`calls, this`stranded
      ensures Valid() && accepted == old(accepted) + [Acceptance(job, now, latest)] && !stranded
      ensures seen == old(seen) + [Entry(job.updateId, now)]
      ensures old(running) ==> jobs == old(jobs) + [job] && worker == old(worker) && calls == old(calls)
      ensures !old(running) ==> jobs == []
      ensures !old(running) && Deliverable(job) ==> worker == Forwarding(job) && calls == old(calls) + [Forward(job)]
    {
      assert !running ==> |jobs| == 0;
      Admit(job, now);
      Run();
    }

    /**
     `enqueue`: a remembered id is turned away, a full or stopping queue takes nothing more, and
     an accepted job is at the end of the queue, or with the worker if that was idle. The memory
     holds 10,001 ids exactly when a job was accepted on top of 10,000 that stayed.
     */
    method Enqueue(job: Job, now: int) returns (r: EnqueueResult)
      requires Valid()
      modifies this
      ensures Valid() && stopping == old(stopping) && stranded == old(stranded)
      ensures latest == if now > old(latest) then now else old(latest)
      ensures r == IsDuplicate <==> Holds(Kept(old(seen), now), job.updateId)
      ensures Steady(old(accepted)) && now >= old(latest) ==>
                (r == IsDuplicate <==> Recent(old(accepted), job.updateId, now))
      ensures seen == Kept(old(seen), now) + (if r == IsAccepted then [Entry(job.updateId, now)] else [])
      ensures |seen| == DEDUPE_CAPACITY + 1 <==> r == IsAccepted && |Kept(old(seen), now)| == DEDUPE_CAPACITY
      ensures r != IsDuplicate ==> (r == IsFull <==> old(stopping) || |old(jobs)| >= QUEUE_CAPACITY)
      ensures r != IsAccepted ==>
                accepted == old(accepted) && jobs == old(jobs) && taken == old(taken) && worker == old(worker)
                && calls == old(calls) && idleWaiters == old(idleWaiters)
      ensures r == IsAccepted ==>
                accepted == old(accepted) + [Acceptance(job, now, latest)] && !old(stopping) && |old(jobs)| < QUEUE_CAPACITY
      ensures r == IsAccepted && old(running) ==> jobs == old(jobs) + [job] && worker == old(worker) && calls == old(calls)
      ensures r == IsAccepted && !old(running) ==> jobs == []
      ensures r == IsAccepted && !old(running) && Deliverable(job) ==>
                worker == Forwarding(job) && calls == old(calls) + [Forward(job)]
    {
      var known := Knows(job.updateId, now);
      if known { return IsDuplicate; }
      if stopping || |jobs| >= QUEUE_CAPACITY { return IsFull; }
      Accept(job, now);
      r := IsAccepted;
    }
  }

  lemma OneForgotten(accepted: seq<Acceptance>, forgotten: nat, latest: int, seen: seq<Entry>)
    requires Memory(accepted, forgotten, latest, seen) && |seen| > 0
    requires latest - seen[0].at > DEDUPE_TTL_MS || |seen| > DEDUPE_CAPACITY
    ensures Memory(accepted, forgotten + 1, latest, seen[1..])
  {
    assert accepted[forgotten..][1..] == accepted[forgotten + 1..];
    assert MayForget(accepted, forgotten, latest);
  }

  lemma TimePasses(accepted: seq<Acceptance>, forgotten: nat, earlier: int, latest: int, seen: seq<Entry>)
    requires Memory(accepted, forgotten, earlier, seen) && earlier <= latest
    ensures Memory(accepted, forgotten, latest, seen)
  {
    forall i | 0 <= i < forgotten
      ensures MayForget(accepted, i, latest)
    {
      assert MayForget(accepted, i, earlier);
    }
    forall i | 0 <= i < |accepted|
      ensures InTime(accepted, i, latest)
    {
      assert InTime(accepted, i, earlier);
    }
  }

  lemma OneRemembered(accepted: seq<Acceptance>, forgotten: nat, a: Acceptance, seen: seq<Entry>)
    requires Memory(accepted, forgotten, a.peak, seen) && |seen| <= DEDUPE_CAPACITY && a.at <= a.peak
    requires !Holds(seen, a.job.updateId)
    ensures Memory(accepted + [a], forgotten, a.peak, seen + [Entry(a.job.updateId, a.at)])
  {
    var all := accepted + [a];
    assert all[forgotten..] == accepted[forgotten..] + [a];
    forall i | forgotten <= i < |accepted|
      ensures accepted[i].job.updateId != a.job.updateId
    {
      assert seen[i - forgotten].updateId == accepted[forgotten..][i - forgotten].job.updateId;
      assert seen[i - forgotten].updateId != a.job.updateId;
    }
    RepeatStaysFar(accepted, forgotten, a);
    forall i | 0 <= i < forgotten
      ensures MayForget(all, i, a.peak)
    {
      assert MayForget(accepted, i, a.peak);
    }
    forall i, j | forgotten <= i < j < |all|
      ensures !SameId(all, i, j)
    {
      assert j < |accepted| ==> !SameId(accepted, i, j);
    }
    forall i | 0 <= i < |all|
      ensures InTime(all, i, a.peak)
    {
      assert i < |accepted| ==> InTime(accepted, i, a.peak);
    }
  }

  lemma OneQueued(accepted: seq<Acceptance>, taken: nat, jobs: seq<Job>, calls: seq<Call>, a: Acceptance)
    requires Queued(accepted, taken, jobs, calls) && |jobs| < QUEUE_CAPACITY
    ensures Queued(accepted + [a], taken, jobs + [a.job], calls)
  {
    var all := Jobs(accepted);
    assert Jobs(accepted + [a]) == all + [a.job];
    assert (all + [a.job])[..taken] == all[..taken] && (all + [a.job])[taken..] == all[taken..] + [a.job];
  }

  lemma OneTaken(accepted: seq<Acceptance>, taken: nat, jobs: seq<Job>, calls: seq<Call>)
    requires Queued(accepted, taken, jobs, calls) && |jobs| > 0
    ensures jobs[0] == accepted[taken].job
    ensures if Deliverable(jobs[0]) then Queued(accepted, taken + 1, jobs[1..], calls + [Forward(jobs[0])])
            else Queued(accepted, taken + 1, jobs[1..], calls)
  {
    var all := Jobs(accepted);
    assert all[..taken + 1] == all[..taken] + [jobs[0]];
    DeliverableSnoc(all[..taken], jobs[0]);
    ForwardedSnoc(calls, Forward(jobs[0]));
  }

  lemma OneAsked(accepted: seq<Acceptance>, taken: nat, jobs: seq<Job>, calls: seq<Call>, call: Call)
    requires Queued(accepted, taken, jobs, calls) && !call.Forward?
    ensures Queued(accepted, taken, jobs, calls + [call])
  {
    ForwardedSnoc(calls, call);
  }

  /** With a steady clock the memory is exactly the recent acceptances. */
  lemma KeptAreRecent(accepted: seq<Acceptance>, forgotten: nat, now: int, seen: seq<Entry>, updateId: int)
    requires Memory(accepted, forgotten, now, seen) && |seen| <= DEDUPE_CAPACITY && Steady(accepted)
    requires |seen| > 0 ==> now - seen[0].at <= DEDUPE_TTL_MS
    ensures Recent(accepted, updateId, now) <==> Holds(seen, updateId)
  {
    if i :| 0 <= i < |seen| && seen[i].updateId == updateId {
      assert accepted[forgotten..][i] == accepted[forgotten + i];
      assert AtPeak(accepted, forgotten + i) && InTime(accepted, forgotten + i, now);
      assert i > 0 ==> InOrder(accepted, forgotten, forgotten + i);
      assert seen[0].at == accepted[forgotten..][0].at == accepted[forgotten].at <= accepted[forgotten + i].at;
      assert RecentAt(accepted, forgotten + i, updateId, now);
    }
    if Recent(accepted, updateId, now) {
      var i :| 0 <= i < |accepted| && RecentAt(accepted, i, updateId, now);
      assert !MayForget(accepted, i, now);
      assert seen[i - forgotten] == Remembered(accepted[forgotten..])[i - forgotten];
    }
  }

  lemma RepeatStaysFar(accepted: seq<Acceptance>, forgotten: nat, a: Acceptance)
    requires RepeatsFarApart(accepted) && forgotten <= |accepted|
    requires forall i | 0 <= i < forgotten :: MayForget(accepted, i, a.peak)
    requires forall i | forgotten <= i < |accepted| :: accepted[i].job.updateId != a.job.updateId
    ensures RepeatsFarApart(accepted + [a])
  {
    var all := accepted + [a];
    forall i, j | 0 <= i < j < |all| && SameId(all, i, j)
      ensures FarApart(all, i, j)
    {
      if j < |accepted| {
        assert SameId(accepted, i, j);
        assert FarApart(accepted, i, j);
      } else {
        assert MayForget(accepted, i, a.peak);
      }
    }
  }

  /** With a steady clock: accepted twice means a day apart, or ten thousand others in between. */
  lemma RepeatsUnderSteadyClock(accepted: seq<Acceptance>, i: nat, j: nat)
    requires RepeatsFarApart(accepted) && Steady(accepted)
    requires i < j < |accepted| && accepted[i].job.updateId == accepted[j].job.updateId
    ensures accepted[j].at - accepted[i].at > 24 * 60 * 60 * 1_000 || j - i > 10_000
  {
    assert SameId(accepted, i, j) && FarApart(accepted, i, j) && AtPeak(accepted, j);
  }

  /**
   Of two jobs with one id that are waiting or with the worker, the later came more than a day
   after the earlier: so there are none while jobs are done within a day.
   */
  lemma PendingRepeatsAreOld(accepted: seq<Acceptance>, taken: nat, jobs: seq<Job>, calls: seq<Call>, i: nat, j: nat)
    requires RepeatsFarApart(accepted) && Queued(accepted, taken, jobs, calls)
    requires taken - 1 <= i < j < |accepted| && accepted[i].job.updateId == accepted[j].job.updateId
    ensures accepted[j].peak - accepted[i].at > DEDUPE_TTL_MS
  {
    assert SameId(accepted, i, j) && FarApart(accepted, i, j);
    assert |Jobs(accepted)[taken..]| == |accepted| - taken;
  }

  lemma {:induction false} DeliverableCount(jobs: seq<Job>, k: nat)
    requires k < |jobs| && Deliverable(jobs[k])
    ensures |DeliverableOf(jobs[..k])| < |DeliverableOf(jobs)|
    ensures DeliverableOf(jobs)[|DeliverableOf(jobs[..k])|] == jobs[k]
    decreases |jobs|
  {
    var front := jobs[..|jobs| - 1];
    if k < |jobs| - 1 {
      DeliverableCount(front, k);
      assert front[..k] == jobs[..k];
    }
  }

  /**
   Each deliverable job that was taken is asked for exactly in its turn: its place among the
   requests is the number of deliverable jobs accepted before it.
   */
  lemma ForwardedInTurn(accepted: seq<Acceptance>, taken: nat, jobs: seq<Job>, calls: seq<Call>, k: nat)
    requires Queued(accepted, taken, jobs, calls) && k < taken && Deliverable(accepted[k].job)
    ensures var turn := |DeliverableOf(Jobs(accepted[..k]))|;
            turn < |Forwarded(calls)| && Forwarded(calls)[turn] == accepted[k].job
  {
    var done := Jobs(accepted)[..taken];
    assert done[..k] == Jobs(accepted[..k]);
    DeliverableCount(done, k);
  }

  lemma ForwardedSnoc(calls: seq<Call>, call: Call)
    ensures Forwarded(calls + [call]) == Forwarded(calls) + (if call.Forward? then [call.job] else [])
  {
    assert (calls + [call])[..|calls|] == calls;
  }

  lemma DeliverableSnoc(jobs: seq<Job>, job: Job)
    ensures DeliverableOf(jobs + [job]) == DeliverableOf(jobs) + (if Deliverable(job) then [job] else [])
  {
    assert (jobs + [job])[..|jobs|] == jobs;
  }

  /** The worker finishes what it has when every action succeeds, whatever the log does. */
  method Finish(q: InboundQueue)
    requires q.Valid() && q.jobs == [] && !q.stopping
    modifies q
    ensures q.Valid() && q.jobs == [] && q.worker == Idle
    ensures q.seen == old(q.seen) && q.latest == old(q.latest) && !q.stopping && q.accepted == old(q.accepted)
  {
    while q.worker != Idle
      invariant q.Valid() && q.jobs == [] && !q.stopping
      invariant q.seen == old(q.seen) && q.latest == old(q.latest) && q.accepted == old(q.accepted)
      decreases match q.worker case Forwarding(_) => 3 case ConfirmingForward(_) => 2 case ConfirmingFailure(_) => 1 case Idle => 0
    {
      q.Resume(true);
    }
  }

  /** Ids below `bound`, all accepted at one time. */
  predicate Together(seen: seq<Entry>, bound: int, at: int) {
    forall i | 0 <= i < |seen| :: seen[i].updateId < bound && seen[i].at == at
  }

  lemma TogetherGrows(seen: seq<Entry>, id: nat, at: int)
    requires Together(seen, id, at) && |seen| <= DEDUPE_CAPACITY
    ensures Kept(seen, at) == seen && !Holds(seen, id)
    ensures Together(seen + [Entry(id, at)], id + 1, at)
  {}

  /** One more update with a new id at the same time is accepted, and done. */
  method Feed(q: InboundQueue, id: nat, now: int)
    requires q.Valid() && q.jobs == [] && q.worker == Idle && !q.stopping && q.latest == now
    requires |q.seen| == id <= DEDUPE_CAPACITY && Together(q.seen, id, now)
    modifies q
    ensures q.Valid() && q.jobs == [] && q.worker == Idle && !q.stopping && q.latest == now
    ensures |q.seen| == id + 1 && Together(q.seen, id + 1, now)
  {
    TogetherGrows(q.seen, id, now);
    var job := Job(id, Some("text"), None);
    var r := q.Enqueue(job, now);
    assert q.seen == old(q.seen) + [Entry(id, now)];
    Finish(q);
  }

  /** It happens: after 10,001 updates with different ids at one time the memory holds them all. */
  method Overfill(now: int) returns (q: InboundQueue)
    ensures fresh(q) && q.Valid() && |q.seen| == 10_001
  {
    q := new InboundQueue(now);
    for id := 0 to 10_001
      invariant fresh(q) && q.Valid() && q.jobs == [] && q.worker == Idle && !q.stopping && q.latest == now
      invariant |q.seen| == id && Together(q.seen, id, now)
    {
      Feed(q, id, now);
    }
  }
}

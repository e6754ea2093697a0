/**
 The publisher itself. Each method is one function of the source; each Git command is a
 method that lets the other writers act, takes one atomic step of the world, and may
 then report success, report failure or die. The ghost field `run` records every step.
 `Valid` says that the recorded run keeps to `GitStep` and to the publisher's `Promise`,
 so the theorems of PublicationModel hold of everything these methods can do.
 */
module Publication {
  import opened Wrappers
  import opened CommitGraph
  import opened StateCodec
  import opened Text
  import opened PublicationModel
  import opened PublicationTrace

  /** How a command ended for the process that gave it. */
  datatype Reply = Done | Failed | Died

  datatype Failure = Failure(
    code: string,
    published: bool,
    preserved: bool,
    preservationPending: bool,
    cleanupPending: bool,
    commit: Option<Commit>,
    branch: Option<string>)

  datatype Result<+T> = Ok(value: T) | Error(failure: Failure) | Crash

  datatype GitSuccess = GitSuccess(pushedCommit: Commit, cleanupFailed: bool)

  function Fail<T>(code: string): Result<T> {
    Error(Failure(code, false, false, false, false, None, None))
  }

  /** A command that did not succeed ends the operation: dead, or failed with this code. */
  function Stop<T>(reply: Reply, code: string): Result<T> {
    if reply.Died? then Crash else Fail(code)
  }

  /** `valid_thread_id`: T- and a lower-case UUID. */
  predicate ValidThreadId(value: string) {
    && |value| == 38 && "T-" <= value
    && forall i | 2 <= i < 38 ::
         if i == 10 || i == 15 || i == 20 || i == 25 then value[i] == '-'
         else '0' <= value[i] <= '9' || 'a' <= value[i] <= 'f'
  }

  class Publisher {
    const thread: string
    var world: World
    ghost var run: Run

    /** Where the running invocation, or the last one, began. */
    ghost var began: nat

    /** The commands given so far. */
    ghost var given: seq<Event>

    ghost predicate Valid()
      reads this
    {
      && run.thread == thread && run.Valid() && run.At(|run.steps|) == world
      && Invariant(world)
      && began <= |run.steps| && Uninterrupted(run, began, |run.steps|)
      && given == Commands(run.steps)
    }

    constructor (thread: string, world: World)
      requires Initial(world)
      ensures Valid() && this.thread == thread && this.world == world && run == Run(thread, world, [])
    {
      this.thread := thread;
      this.world := world;
      this.run := Run(thread, world, []);
      this.began := 0;
      this.given := [];
    }

    // ----- Steps of the world -----

    method Step(event: Event, next: World)
      requires Valid() && Legal(thread, Entry(world, event, next))
      modifies this
      ensures Valid() && world == next
      ensures run == old(run).(steps := old(run).steps + [Entry(old(world), event, next)])
      ensures Descends(old(world), world)
      ensures given == old(given) + (if IsCommand(event) then [event] else [])
      ensures began == if event.Owner? || event.ProcessBegins? then |run.steps| else old(began)
    {
      ghost var e := Entry(world, event, next);
      StepKeepsInvariant(thread, e);
      StepDescends(world, event, next);
      ghost var earlier := run;
      run := run.(steps := run.steps + [e]);
      world := next;
      RunExtended(earlier, e);
      CommandsSnoc(earlier.steps, e);
      given := given + (if IsCommand(event) then [event] else []);
      if event.Owner? || event.ProcessBegins? { began := |run.steps|; }
    }

    static lemma RunExtended(earlier: Run, e: Entry)
      requires earlier.Valid() && e.pre == earlier.At(|earlier.steps|) && Legal(earlier.thread, e)
      ensures var later := earlier.(steps := earlier.steps + [e]);
              later.Valid() && forall i | 0 <= i <= |earlier.steps| :: later.At(i) == earlier.At(i)
    {
      var later := earlier.(steps := earlier.steps + [e]);
      forall i | 0 <= i < |later.steps|
        ensures later.LegalAt(i)
      {
        if i < |earlier.steps| { assert earlier.LegalAt(i); }
        assert later.At(i) == earlier.At(i);
      }
    }

    /** The record has grown, within one invocation. */
    twostate predicate Progress()
      reads this
    {
      Recorded() && began == old(began)
    }

    /** The record has grown. */
    twostate predicate Recorded()
      reads this
    {
      Valid() && run.Extends(old(run)) && old(given) <= given
    }

    /** The commands given since. */
    twostate function New(): seq<Event>
      requires old(given) <= given
      reads this
    {
      given[|old(given)|..]
    }

    /** At most this command was given. */
    twostate predicate Gave(command: Event)
      reads this
    {
      given == old(given) || given == old(given) + [command]
    }

    /** Local main moved, if at all, by compare-and-swap from the original commit to a published one. */
    twostate predicate MainByCas()
      reads this
    {
      forall k | |old(run.steps)| <= k < |run.steps| :: ByCas(run.steps[k])
    }

    /** Local main stays where it is. */
    twostate predicate MainStays()
      reads this
    {
      forall k | |old(run.steps)| <= k < |run.steps| :: run.steps[k].post.local.main == run.steps[k].pre.local.main
    }

    /** Or once more by the one commit of a fresh publication. */
    twostate predicate MainByOneCommit()
      reads this
    {
      && |old(run.steps)| <= |run.steps|
      && (forall k | |old(run.steps)| <= k < |run.steps| :: ByCas(run.steps[k]) || run.steps[k].event.CommitOnMain?)
      && Commits(run, |old(run.steps)|, |run.steps|) <= 1
    }

    /** A fetch brought this tip of remote main. */
    twostate predicate Brought(tip: Commit)
      reads this
    {
      exists k | |old(run.steps)| <= k < |run.steps| ::
        run.steps[k].event.FetchMain? && run.steps[k].post.local.tracking == tip
    }

    /** A fetch brought another tip of remote main. */
    twostate predicate TipChanged(tip: Commit)
      reads this
    {
      exists k | |old(run.steps)| <= k < |run.steps| ::
        run.steps[k].event.FetchMain? && run.steps[k].post.local.tracking != tip
    }

    /** Whatever is pushed to main was not known to be published. */
    twostate predicate PushesUnpublished()
      reads this
    {
      forall k | |old(run.steps)| <= k < |run.steps| && run.steps[k].event.PushMain? ::
        !Ancestor(run.steps[k].pre.graph, run.steps[k].event.commit, run.steps[k].pre.local.tracking)
    }

    /** A step with this milestone was taken. */
    twostate predicate Took(milestone: nat)
      reads this
    {
      exists k | |old(run.steps)| <= k < |run.steps| :: Milestone(run.steps[k].event) == milestone
    }

    /** Origin was fetched, and HEAD rebased after that. */
    twostate predicate FetchedThenRebased()
      reads this
    {
      exists k, l | |old(run.steps)| <= k < l < |run.steps| ::
        Milestone(run.steps[k].event) == FETCHED && Milestone(run.steps[l].event) == REBASED
    }

    /** The commit was synchronized. */
    twostate predicate Synchronized(commit: Commit)
      reads this
    {
      exists k | |old(run.steps)| <= k < |run.steps| :: run.steps[k].event == Synchronize(commit)
    }

    /** Nothing local has changed, and the process still knows what it knew. */
    twostate predicate Undisturbed()
      reads this
    {
      world.local == old(world.local) && world.memory == old(world.memory)
    }

    method OthersAct()
      requires Valid()
      modifies this
      ensures Progress() && Undisturbed() && Descends(old(world), world) && given == old(given)
    {
      var next: World := *;
      if OthersStep(world, next) { Step(Others, next); }
    }

    method Die()
      requires Valid()
      modifies this
      ensures Progress() && world == old(world).(memory := BLANK) && given == old(given)
    {
      Step(ProcessEnds, world.(memory := BLANK));
    }

    /** The answer to a command: success only if it happened; death or an error at any time. */
    method Answer(happened: bool) returns (r: Reply)
      requires Valid()
      modifies this
      ensures Progress()
      ensures given == old(given)
      ensures r.Done? ==> happened
      ensures if r.Died? then world == old(world).(memory := BLANK) else world == old(world)
    {
      var dies, succeeds := *, *;
      if dies {
        Die();
        return Died;
      }
      return if happened && succeeds then Done else Failed;
    }

    /** A command that only reads, or touches no more than the index and the worktree. */
    method Inspect() returns (r: Reply)
      requires Valid()
      modifies this
      ensures Progress()
      ensures given == old(given)
      ensures !r.Died? ==> Undisturbed()
      ensures r.Died? ==> world.memory == BLANK
    {
      OthersAct();
      r := Answer(true);
    }

    // ----- Git commands that move refs -----

    method Fetch() returns (r: Reply)
      requires Valid()
      modifies this
      ensures Progress()
      ensures r.Done? ==> given == old(given) + [FetchMain]
      ensures r.Done? ==> Brought(world.local.tracking)
      ensures Gave(FetchMain)
      ensures r.Done? ==> Took(FETCHED)
      ensures !r.Died? ==> world.memory == old(world.memory)
                           && world.local == old(world.local).(tracking := world.local.tracking)
      ensures r.Died? ==> world.memory == BLANK
    {
      OthersAct();
      var happened := *;
      if happened { Step(FetchMain, world.(local := world.local.(tracking := world.remote.main))); }
      r := Answer(happened);
    }

    method CommitManagedIndex() returns (r: Reply)
      requires Valid() && Promise(thread, world, CommitOnMain) && world.local.head.Attached?
      modifies this
      ensures Progress()
      ensures r.Done? ==> Took(1)
      ensures !r.Died? ==> world.local == old(world.local).(main := world.local.main)
      ensures r.Done? ==> world.memory == old(world.memory).(phase := Committed)
      ensures r.Died? ==> world.memory == BLANK
    {
      OthersAct();
      StillKnown(old(world), world, world.local.main, world.local.tracking);
      var graph: Graph, commit: Commit := *, *;
      var next := world.(graph := graph, local := world.local.(main := commit),
                         memory := world.memory.(phase := Committed));
      var happened := LocalStep(world, next);
      if happened { Step(CommitOnMain, next); }
      r := Answer(happened);
    }

    method CreateStateRefs() returns (r: Reply)
      requires Valid() && Promise(thread, world, CreateRefs) && world.local.publication.None?
      modifies this
      ensures Progress()
      ensures r.Done? ==> Took(2) && world.local == Created(old(world.local)) && world.memory == old(world.memory)
      ensures world.local == old(world.local) || world.local == Created(old(world.local))
      ensures r.Died? ==> world.memory == BLANK
    {
      OthersAct();
      var happened := *;
      if happened { Step(CreateRefs, world.(local := Created(world.local))); }
      r := Answer(happened);
    }

    /** Both refs, with HEAD as the original commit and an empty state. */
    function Created(l: Local): Local {
      l.(publication := Some(Publication(HeadCommit(l), Memo(0, NotStarted, [], []))))
    }

    /** One transaction: verify `original`, replace the state blob. */
    method UpdateStateRef(memo: Memo) returns (r: Reply)
      requires Valid() && MemoPromise(thread, world, memo)
      modifies this
      ensures Progress()
      ensures Gave(UpdateRefs(memo)) && (r.Done? ==> given == old(given) + [UpdateRefs(memo)])
      ensures r.Done? ==> world.memory == AfterUpdate(old(world), memo) && world.local == WithMemo(old(world.local), memo)
      ensures world.local == old(world.local) || world.local == WithMemo(old(world.local), memo)
      ensures r.Died? ==> world.memory == BLANK
    {
      OthersAct();
      var happened := *;
      if happened {
        Step(UpdateRefs(memo), world.(local := WithMemo(world.local, memo), memory := AfterUpdate(world, memo)));
      }
      r := Answer(happened);
    }

    /** The state blob is replaced and nothing else. */
    function WithMemo(l: Local, memo: Memo): Local
      requires l.publication.Some?
    {
      l.(publication := Some(l.publication.value.(memo := memo)))
    }

    /** `cleanup_state`. */
    method CleanupState() returns (r: Reply)
      requires Valid() && Durable(thread, world)
      modifies this
      ensures Progress()
      ensures Gave(DeleteRefs)
      ensures world.local == old(world.local) || world.local == old(world.local).(publication := None)
      ensures r.Done? ==> world.local == old(world.local).(publication := None)
      ensures r.Died? ==> world.memory == BLANK
    {
      OthersAct();
      Remains(old(run));
      var happened := *;
      if happened {
        Step(DeleteRefs, world.(local := world.local.(publication := None), memory := world.memory.(phase := Closed)));
      }
      r := Answer(happened);
    }

    method SwitchToOriginal() returns (r: Reply)
      requires Valid() && world.local.publication.Some? && world.memory.phase.Committed?
      modifies this
      ensures Progress()
      ensures r.Done? ==> Took(3) && world.local.head == Detached(old(world.local.publication.value.original))
      ensures r.Done? ==> world.memory == old(world.memory).(phase := Free)
      ensures world.local == old(world.local).(head := world.local.head)
      ensures r.Died? ==> world.memory == BLANK
    {
      OthersAct();
      var commit := world.local.publication.value.original;
      var happened := *;
      if happened {
        Step(SwitchDetach(commit),
             world.(local := world.local.(head := Detached(commit)), memory := world.memory.(phase := Free)));
      }
      r := Answer(happened);
    }

    method SwitchToMain() returns (r: Reply)
      requires Valid() && Promise(thread, world, SwitchMain)
      modifies this
      ensures Progress()
      ensures Gave(SwitchMain) && (r.Done? ==> given == old(given) + [SwitchMain])
      ensures r.Done? ==> world.memory == old(world.memory).(phase := Closed)
                          && world.local == old(world.local).(head := Attached)
      ensures r.Died? ==> world.memory == BLANK
    {
      OthersAct();
      var happened := *;
      if happened {
        Step(SwitchMain, world.(local := world.local.(head := Attached), memory := world.memory.(phase := Closed)));
      }
      r := Answer(happened);
    }

    /** `git update-ref refs/heads/main commit original`. */
    method CompareAndSwapMain(commit: Commit) returns (r: Reply)
      requires Valid() && Contained(world, commit) && world.local.publication.Some?
      requires world.local.main == world.local.publication.value.original
      modifies this
      ensures Progress()
      ensures Gave(UpdateMain(commit)) && (r.Done? ==> given == old(given) + [UpdateMain(commit)])
      ensures r.Done? ==> world.local == old(world.local).(main := commit)
      ensures r.Died? ==> world.memory == BLANK
    {
      OthersAct();
      Remains(old(run));
      var happened := *;
      if happened { Step(UpdateMain(commit), world.(local := world.local.(main := commit))); }
      r := Answer(happened);
    }

    /** `git rebase`, `git rebase --continue`: HEAD moves, or the rebase stops, or nothing happens. */
    method Rebase() returns (r: Reply, succeeded: bool)
      requires Valid() && Promise(thread, world, HeadMoves)
      modifies this
      ensures Progress()
      ensures r.Done? && succeeded ==> Took(REBASED)
      ensures !r.Died? ==> Carried()
      ensures r.Died? ==> world.memory == BLANK
    {
      OthersAct();
      var graph: Graph, local: Local := *, *;
      var next := world.(graph := graph, local := local);
      var from := if world.local.rebase.Stopped? then world.local.rebase.from else world.local.head;
      succeeded := LocalStep(world, next) && Moved(from, world.local, local);
      if succeeded {
        Step(HeadMoves, next);
      } else if LocalStep(world, next) && local.head.Detached?
                && local == world.local.(
                     head := local.head,
                     rebase := if world.local.rebase.Stopped? then world.local.rebase
                               else Stopped(world.local.head)) {
        Step(RebaseStops, next);
      }
      r := Answer(true);
    }

    /** The state refs, the tracking ref and the memory are as they were. */
    twostate predicate Carried()
      reads this
    {
      && world.memory == old(world.memory)
      && world.local.publication == old(world.local.publication)
      && world.local.tracking == old(world.local.tracking)
    }

    method Amend() returns (r: Reply)
      requires Valid() && Promise(thread, world, HeadMoves)
      modifies this
      ensures Progress()
      ensures !r.Died? ==> Carried()
      ensures r.Died? ==> world.memory == BLANK
    {
      OthersAct();
      var graph: Graph, local: Local := *, *;
      var next := world.(graph := graph, local := local);
      var happened := world.local.rebase.NoRebase? && LocalStep(world, next)
                      && Moved(world.local.head, world.local, local);
      if happened { Step(HeadMoves, next); }
      r := Answer(happened);
    }

    method AbortRebase() returns (r: Reply, succeeded: bool)
      requires Valid() && Promise(thread, world, RebaseAborts) && world.local.rebase.Stopped?
      modifies this
      ensures Progress()
      ensures Gave(RebaseAborts) && (r.Done? && succeeded ==> given == old(given) + [RebaseAborts])
      ensures !r.Died? ==> Carried()
      ensures r.Done? && succeeded ==> world.local.rebase.NoRebase?
      ensures r.Died? ==> world.memory == BLANK
    {
      OthersAct();
      succeeded := *;
      if succeeded {
        Step(RebaseAborts, world.(local := world.local.(head := world.local.rebase.from, rebase := NoRebase)));
      }
      r := Answer(true);
    }

    /** `push_ref` to refs/heads/main; `accepted` is the exit status of the push. */
    method PushToMain(commit: Commit) returns (r: Reply, accepted: bool)
      requires Valid() && Promise(thread, world, PushMain(commit, true))
      modifies this
      ensures Progress()
      ensures !r.Died? ==> world.local == old(world.local)
      ensures !r.Died? && !accepted ==> world.memory == old(world.memory).(tipBeforePush := Some(world.local.tracking))
      ensures r.Done? && accepted ==> Contained(world, commit)
      ensures r.Died? ==> world.memory == BLANK
    {
      OthersAct();
      StillKnown(old(world), world, commit, world.local.tracking);
      var moved := *;
      moved := moved && Ancestor(world.graph, world.remote.main, commit);
      accepted := *;
      accepted := accepted && moved;
      AncestorSelf(world, commit);
      Step(PushMain(commit, accepted),
           world.(remote := if moved then MainPushed(world, commit) else world.remote,
                  memory := if accepted then world.memory.(phase := Closed)
                            else world.memory.(tipBeforePush := Some(world.local.tracking))));
      r := Answer(true);
    }

    method PushToBranch(branch: string, commit: Commit) returns (r: Reply, accepted: bool)
      requires Valid() && Promise(thread, world, PushBranch(branch, commit, true))
      modifies this
      ensures Progress()
      ensures given == old(given) + [PushBranch(branch, commit, accepted)]
      ensures !r.Died? ==> world.local == old(world.local)
      ensures r.Done? && accepted ==> world.memory.seen == Some((branch, commit))
      ensures r.Died? ==> world.memory == BLANK
    {
      OthersAct();
      StillKnown(old(world), world, commit, world.local.tracking);
      var moved := *;
      moved := moved && FastForward(world.graph, BranchTip(world.remote, branch), commit);
      accepted := *;
      accepted := accepted && moved;
      Step(PushBranch(branch, commit, accepted),
           world.(remote := if moved then BranchPushed(world, branch, commit) else world.remote,
                  memory := world.memory.(seen := if accepted then Some((branch, commit)) else None)));
      r := Answer(true);
    }

    /** `remote_branch_status`. */
    method RemoteBranchStatus(branch: string) returns (r: Reply, found: Option<Commit>)
      requires Valid()
      modifies this
      ensures Progress()
      ensures given == old(given) + [Observe(branch, found)] && found == BranchTip(world.remote, branch)
      ensures !r.Died? ==> world.local == old(world.local)
      ensures !r.Died? ==> world.memory.seen == if found.Some? then Some((branch, found.value)) else None
      ensures r.Died? ==> world.memory == BLANK
    {
      OthersAct();
      found := BranchTip(world.remote, branch);
      Step(Observe(branch, found), world.(memory := world.memory.(seen :=
             if found.Some? then Some((branch, found.value)) else None)));
      r := Answer(true);
    }

    // ----- What an outcome claims -----

    /** The run holds a step that pushed the commit to the remote branch, or found it there, and there it was. */
    ghost predicate Witnessed(branch: string, commit: Commit)
      reads this
    {
      exists k | 0 <= k < |run.steps| :: Witness(run, k, branch, commit)
    }

    ghost predicate HonestFailure(f: Failure)
      reads this
    {
      && (f.published ==> f.commit.Some? && Contained(world, f.commit.value))
      && (f.preserved || f.code == "publish_race_exhausted" ==>
            f.commit.Some? && f.branch.Some? && Witnessed(f.branch.value, f.commit.value))
      && (f.code == "publish_race_exhausted" ==> RecoveryBranch(thread, f.branch.value))
      && (f.cleanupPending ==> f.preserved)
      && (f.preserved && !f.cleanupPending ==> world.local.publication.None?)
    }

    /** Local main is on the commit, HEAD is on main, and no publication is left behind. */
    predicate SettledOn(l: Local, commit: Commit) {
      l.main == commit && l.head.Attached? && l.publication.None?
    }

    ghost predicate Honest(r: Result<GitSuccess>)
      reads this
    {
      match r
      case Ok(s) => Contained(world, s.pushedCommit) && (s.cleanupFailed || SettledOn(world.local, s.pushedCommit))
      case Error(f) => !f.published && HonestFailure(f)
      case Crash => world.memory == BLANK
    }

    /** A claim of preservation is about the original commit, on the branch recorded for it if there was one. */
    ghost predicate PreservesOriginal(r: Result<GitSuccess>, p: Publication)
    {
      r.Error? && r.failure.preserved ==>
        && r.failure.commit == Some(p.original)
        && (Active(p.memo.preservation) ==> r.failure.branch == Some(p.memo.preservation.branch))
    }

    ghost predicate NoPreservation<T>(r: Result<T>) {
      r.Error? ==> !r.failure.preserved
    }

    /** The publication is active and no preservation has begun. */
    ghost predicate Unpreserved()
      reads this
    {
      Valid() && world.local.publication.Some? && !Active(world.local.publication.value.memo.preservation)
    }

    /** And the process may still move HEAD. */
    ghost predicate Publishing()
      reads this
    {
      Unpreserved() && world.memory.phase.Free?
    }

    // ----- Updating the state -----

    method UpdateState(races: int, conflicts: seq<string>, baseline: Baseline) returns (r: Reply)
      requires Publishing()
      requires var m := world.local.publication.value.memo;
               || (races == m.races && m.conflicts == [] && conflicts != [])
               || (races == m.races && conflicts == [] && baseline == [])
               || (conflicts == [] && baseline == []
                   && CountsRace(world, m, Cleared(m).(races := races)))
      modifies this
      ensures Progress()
      ensures var memo := Updated(old(world.local.publication.value.memo), races, conflicts, baseline);
              && Gave(UpdateRefs(memo)) && (r.Done? ==> given == old(given) + [UpdateRefs(memo)])
              && (world.local == old(world.local) || world.local == WithMemo(old(world.local), memo))
              && (r.Done? ==> world.local == WithMemo(old(world.local), memo)
                              && world.memory == AfterUpdate(old(world), memo))
      ensures r.Done? ==> Publishing()
      ensures conflicts == [] ==> SortUnique(conflicts, Self) == []
      ensures r.Died? ==> world.memory == BLANK
    {
      SortUniqueAscends(conflicts, Self);
      r := UpdateStateRef(Updated(world.local.publication.value.memo, races, conflicts, baseline));
    }

    /** `update_preservation`: the two transitions there are, on a well-formed branch name. */
    method UpdatePreservation(p: Preservation) returns (r: Reply)
      requires Valid() && world.local.publication.Some? && Active(p)
      requires var m := world.local.publication.value.memo;
               p.PushPending? ==> !Active(m.preservation) && m.conflicts != [] && OnOriginal(world.local)
      requires p.Proven? ==>
                 world.memory.seen == Some((p.branch, world.local.publication.value.original))
      modifies this
      ensures Progress()
      ensures var m := old(world.local.publication.value.memo);
              var memo := m.(preservation := p);
              && Gave(UpdateRefs(memo)) && (r.Done? ==> given == old(given) + [UpdateRefs(memo)])
              && (given != old(given) ==> ValidPreservedBranch(thread, p.branch) && Transition(m.preservation, p))
              && (world.local == old(world.local) || world.local == WithMemo(old(world.local), memo))
              && (r.Done? ==> world.local == WithMemo(old(world.local), memo) && world.memory == old(world.memory))
      ensures r.Died? ==> world.memory == BLANK
    {
      var m := world.local.publication.value.memo;
      if !Transition(m.preservation, p) || !ValidPreservedBranch(thread, p.branch) { return Failed; }
      r := UpdateStateRef(m.(preservation := p));
    }

    /** From no preservation to a pending branch, and from that to proof of the same branch. */
    predicate Transition(from: Preservation, to: Preservation) {
      (!Active(from) && to.PushPending?) || (from.PushPending? && to == Proven(from.branch))
    }

    // ----- Rebasing -----

    method FinalizeRebasedCommit() returns (r: Reply)
      requires Publishing()
      modifies this
      ensures Progress()
      ensures !r.Died? ==> Carried()
      ensures r.Died? ==> world.memory == BLANK
    {
      r := Inspect();
      if !r.Done? { return; }
      var staged := *;
      if staged {
        r := Amend();
        if !r.Done? { return; }
      }
      r := Inspect();
    }

    function Genuine(paths: seq<string>): seq<string> {
      if |paths| == 0 then []
      else (if paths[0] == "TODO.md" then [] else [paths[0]]) + Genuine(paths[1..])
    }

    method RecordConflicts(paths: seq<string>) returns (r: Reply)
      requires Publishing()
      modifies this
      ensures Progress()
      ensures r.Done? ==> Publishing() && world.memory == old(world.memory)
      ensures r.Done? && (Genuine(paths) == [] || old(world.local.publication.value.memo.conflicts) != []) ==>
                world.local == old(world.local)
      ensures r.Done? && Genuine(paths) != [] && old(world.local.publication.value.memo.conflicts) == [] ==>
                var m := world.local.publication.value.memo;
                && world.local == WithMemo(old(world.local), m)
                && m == old(world.local.publication.value.memo).(
                          conflicts := SortUnique(Genuine(paths), Self), baseline := m.baseline)
      ensures r.Died? ==> world.memory == BLANK
    {
      var genuine := Genuine(paths);
      if genuine == [] || world.local.publication.value.memo.conflicts != [] { return Done; }
      r := Inspect();
      if !r.Done? { return; }
      var baseline: Baseline := *;
      r := UpdateState(world.local.publication.value.memo.races, genuine, baseline);
    }

    function ConflictError(): Result<()>
      reads this
      requires world.local.publication.Some?
    {
      Error(Failure("publish_conflict", false, false, false, false,
                    Some(world.local.publication.value.original), None))
    }

    /** A clean race may be counted: main was pushed from another tip than the fetched one. */
    ghost predicate Raced()
      reads this
    {
      && world.local.publication.Some? && world.local.publication.value.memo.races < 3
      && world.memory.tipBeforePush.Some? && world.memory.tipBeforePush.value != world.local.tracking
    }

    /** How a rebase leaves the publication: one more race exactly when it was to be counted. */
    twostate predicate Rebased(countCleanRace: bool)
      requires old(world.local.publication.Some?)
      reads this
    {
      && Publishing()
      && world.local.publication.value.memo.races
         == old(world.local.publication.value.memo.races) + (if countCleanRace then 1 else 0)
      && world.memory.tipBeforePush == (if countCleanRace then None else old(world.memory.tipBeforePush))
      && (countCleanRace ==> CountedLast())
    }

    /** The last command recorded the state there is now. */
    twostate predicate CountedLast()
      reads this
    {
      && world.local.publication.Some? && old(given) < given
      && given[|given| - 1] == UpdateRefs(world.local.publication.value.memo)
    }

    /** A failure that claims nothing: not published, not preserved, not exhausted. */
    predicate Modest(f: Failure) {
      && !f.published && !f.preserved && !f.cleanupPending && f.code != "publish_race_exhausted"
    }

    /** The process is where it was: same races, same tracking ref, same memory. */
    twostate predicate Steady()
      requires old(world.local.publication.Some?)
      reads this
    {
      && Publishing()
      && world.local.publication.value.memo.races == old(world.local.publication.value.memo.races)
      && world.local.tracking == old(world.local.tracking)
      && world.memory == old(world.memory)
    }

    /** The part of `continue_rebase` before `rebase --continue`. */
    method StageResolution() returns (r: Result<()>)
      requires Publishing()
      modifies this
      ensures Progress()
      ensures match r
              case Ok(_) => Steady()
              case Error(f) => Modest(f)
              case Crash => world.memory == BLANK
    {
      var c := Inspect();
      if !c.Done? { return Stop(c, "git_failed"); }
      var initial: seq<string> := *;
      c := RecordConflicts(initial);
      if !c.Done? { return Stop(c, "publish_state_update_failed"); }
      c := Inspect();
      if !c.Done? { return Stop(c, "publish_unrelated_changes"); }
      if Genuine(initial) != [] { return ConflictError(); }
      c := Inspect();
      if !c.Done? { return Stop(c, "publish_validation_failed"); }
      var remaining: seq<string> := *;
      if Genuine(remaining) != [] {
        r := ReportConflicts(remaining);
        return;
      }
      if remaining != [] { return Fail("publish_todo_conflict_unresolved"); }
      return Ok(());
    }

    method ReportConflicts(paths: seq<string>) returns (r: Result<()>)
      requires Publishing()
      modifies this
      ensures Progress()
      ensures match r
              case Ok(_) => false
              case Error(f) => Modest(f)
              case Crash => world.memory == BLANK
    {
      var c := RecordConflicts(paths);
      if !c.Done? { return Stop(c, "publish_state_update_failed"); }
      return ConflictError();
    }

    /** The part of `continue_rebase` after a `rebase --continue` that succeeded. */
    method ConcludeRebase(countCleanRace: bool) returns (r: Result<()>)
      requires Publishing() && (countCleanRace ==> Raced())
      modifies this
      ensures Progress()
      ensures r.Ok? ==> world.local.publication.Some? && world.local.publication.value.memo.conflicts == []
      ensures match r
              case Ok(_) => Rebased(countCleanRace)
              case Error(f) => Modest(f)
              case Crash => world.memory == BLANK
    {
      var c := FinalizeRebasedCommit();
      if !c.Done? { return Stop(c, "publish_validation_failed"); }
      if world.local.publication.value.memo.conflicts != [] {
        c := UpdateState(world.local.publication.value.memo.races, [], []);
        if !c.Done? { return Stop(c, "publish_state_update_failed"); }
      }
      if countCleanRace {
        c := UpdateState(world.local.publication.value.memo.races + 1, [], []);
        if !c.Done? { return Stop(c, "publish_state_update_failed"); }
      }
      return Ok(());
    }

    method ContinueRebase(countCleanRace: bool) returns (r: Result<()>)
      requires Publishing() && (countCleanRace ==> Raced())
      modifies this
      ensures Progress()
      ensures r.Ok? ==> Took(REBASED)
      ensures r.Ok? ==> world.local.publication.Some? && world.local.publication.value.memo.conflicts == []
      ensures match r
              case Ok(_) => Rebased(countCleanRace)
              case Error(f) => Modest(f)
              case Crash => world.memory == BLANK
    {
      r := StageResolution();
      if !r.Ok? { return; }
      var c, succeeded := Rebase();
      if !c.Done? { return Stop(c, "git_failed"); }
      if succeeded {
        r := ConcludeRebase(countCleanRace);
        return;
      }
      c := Inspect();
      if !c.Done? { return Stop(c, "git_failed"); }
      var paths: seq<string> := *;
      if Genuine(paths) == [] { return Fail("publish_rebase_failed"); }
      r := ReportConflicts(paths);
    }

    method RebaseOntoOrigin(countCleanRace: bool) returns (r: Result<()>)
      requires Publishing() && (countCleanRace ==> Raced())
      modifies this
      ensures Progress()
      ensures r.Ok? ==> Took(REBASED)
      ensures match r
              case Ok(_) => Rebased(countCleanRace)
              case Error(f) => Modest(f)
              case Crash => world.memory == BLANK
    {
      var c, succeeded := Rebase();
      if !c.Done? { return Stop(c, "git_failed"); }
      if !succeeded {
        r := ContinueRebase(countCleanRace);
        return;
      }
      c := FinalizeRebasedCommit();
      if !c.Done? { return Stop(c, "publish_validation_failed"); }
      if countCleanRace {
        c := UpdateState(world.local.publication.value.memo.races + 1, [], []);
        if !c.Done? { return Stop(c, "publish_state_update_failed"); }
      }
      return Ok(());
    }

    // ----- Publishing -----

    method AttachPublishedMain(commit: Commit) returns (r: Reply)
      requires Unpreserved() && Contained(world, commit)
      modifies this
      ensures Progress()
      ensures AttachTrace(old(world.local), commit, New())
      ensures r.Done? ==> Unpreserved() && world.local.head.Attached? && world.local.main == commit
      ensures r.Died? ==> world.memory == BLANK
    {
      r := Inspect();
      if !r.Done? { return; }
      Remains(old(run));
      if world.local.main == commit {
      } else if world.local.main == world.local.publication.value.original {
        r := CompareAndSwapMain(commit);
        if !r.Done? { return; }
      } else {
        return Failed;
      }
      r := SwitchToMain();
      if !r.Done? { return; }
      r := Inspect();
      if !r.Done? { return; }
      if HeadCommit(world.local) != commit { r := Failed; }
    }

    method PublishedSuccess(commit: Commit) returns (r: Result<GitSuccess>)
      requires Unpreserved() && Contained(world, commit)
      modifies this
      ensures Progress() && Honest(r) && !r.Error?
      ensures r.Ok? ==> r.value.pushedCommit == commit
    {
      var c := AttachPublishedMain(commit);
      Remains(old(run));
      if c.Died? { return Crash; }
      if c.Failed? { return Ok(GitSuccess(commit, true)); }
      c := CleanupState();
      Remains(old(run));
      if c.Died? { return Crash; }
      return Ok(GitSuccess(commit, c.Failed?));
    }

    /** A failure that claims nothing is honest. */
    lemma ModestIsHonest(f: Failure)
      requires Modest(f)
      ensures HonestFailure(f) && !f.published
    {}

    /** What the process saw is in the record. */
    lemma SeenIsWitnessed()
      requires Valid() && world.memory.seen.Some?
      ensures Witnessed(world.memory.seen.value.0, world.memory.seen.value.1)
    {
      SeenHasEvidence(run, |run.steps|);
    }

    /** So is what the recorded proof stands for. */
    lemma ProofIsWitnessed()
      requires Valid() && world.local.publication.Some? && world.local.publication.value.memo.preservation.Proven?
      ensures Witnessed(world.local.publication.value.memo.preservation.branch, world.local.publication.value.original)
    {
      ProofHasEvidence(run, |run.steps|);
    }

    lemma WitnessRemains(earlier: Run, branch: string, commit: Commit)
      requires run.Extends(earlier)
      requires exists k | 0 <= k < |earlier.steps| :: Witness(earlier, k, branch, commit)
      ensures Witnessed(branch, commit)
    {
      var k :| 0 <= k < |earlier.steps| && Witness(earlier, k, branch, commit);
      assert run.steps[k] == earlier.steps[k] && run.At(k + 1) == earlier.At(k + 1);
      assert Witness(run, k, branch, commit);
    }

    /** The third counted race: the rebased commit goes to a recovery branch. */
    method PushRecovery(head: Commit) returns (r: Result<GitSuccess>)
      requires Publishing() && Unpublished(world, head)
      requires world.local.publication.value.memo.races == 3
      modifies this
      ensures Progress() && Honest(r) && !r.Ok?
      ensures r.Error? && r.failure.code == "publish_race_exhausted" ==>
                && |New()| > 0 && New()[0].PushBranch? && New()[0].accepted
                && r.failure.commit == Some(head) && r.failure.branch == Some(New()[0].branch)
      ensures RecoveryTrace(thread, head, New())
      ensures NoPreservation(r)
    {
      var timestamp: string := *;
      var branch := "recovery/" + thread + "/" + timestamp;
      var c, accepted := PushToBranch(branch, head);
      if !c.Done? { return Stop(c, "git_push_failed"); }
      if !accepted { return Fail("publish_recovery_failed"); }
      SeenIsWitnessed();
      ghost var pushed := run;
      c := CleanupState();
      if c.Died? { return Crash; }
      WitnessRemains(pushed, branch, head);
      return Error(Failure("publish_race_exhausted", false, false, false, false, Some(head), Some(branch)));
    }

    /**
     `publish_attempts`: at most three pushes of main, because each further one needs one
     more counted race.
     */
    method PublishAttempts() returns (r: Result<GitSuccess>)
      requires Publishing() && world.memory.tipBeforePush.None?
      modifies this
      ensures Progress() && Honest(r)
      ensures NoPreservation(r)
      decreases 3 - world.local.publication.value.memo.races
    {
      var c := Inspect();
      if !c.Done? { return Stop(c, "publish_validation_failed"); }
      var head := HeadCommit(world.local);
      var remoteBefore := world.local.tracking;
      if Ancestor(world.graph, head, remoteBefore) {
        AncestorTransitive(world.graph, head, remoteBefore, world.remote.main);
        r := PublishedSuccess(head);
        return;
      }
      if world.local.publication.value.memo.races >= 3 {
        r := PushRecovery(head);
        return;
      }
      var accepted;
      c, accepted := PushToMain(head);
      if !c.Done? { return Stop(c, "git_push_failed"); }
      if accepted {
        r := PublishedSuccess(head);
        return;
      }
      r := RetryAfterLostPush(remoteBefore);
    }

    /** The part of `publish_attempts` after a push that did not succeed. */
    method RetryAfterLostPush(remoteBefore: Commit) returns (r: Result<GitSuccess>)
      requires Publishing() && world.local.publication.value.memo.races < 3
      requires world.local.tracking == remoteBefore && world.memory.tipBeforePush == Some(remoteBefore)
      modifies this
      ensures Progress() && Honest(r) && NoPreservation(r)
      ensures r.Ok? || |New()| > 1 ==> TipChanged(remoteBefore)
      ensures r.Ok? ==> Wrote(old(world.local.publication.value.memo.races) + 1)
      decreases 3 - world.local.publication.value.memo.races, 1
    {
      var c := Fetch();
      if !c.Done? { return Stop(c, "git_failed"); }
      if world.local.tracking == remoteBefore { return Fail("publish_push_failed"); }
      ghost var fetched := run;
      ghost var k :| |old(run.steps)| <= k < |run.steps|
                     && run.steps[k].event.FetchMain? && run.steps[k].post.local.tracking == world.local.tracking;
      r := RebaseAndRetry();
      assert run.steps[k] == fetched.steps[k];
    }

    /** A command recorded this number of races. */
    twostate predicate Wrote(races: int)
      requires old(given) <= given
      reads this
    {
      exists i | |old(given)| <= i < |given| :: given[i].UpdateRefs? && given[i].memo.races == races
    }

    /** The race is counted with the rebase, and the next attempt made. */
    method RebaseAndRetry() returns (r: Result<GitSuccess>)
      requires Publishing() && Raced()
      modifies this
      ensures Progress() && Honest(r) && NoPreservation(r)
      ensures r.Ok? ==> Wrote(old(world.local.publication.value.memo.races) + 1)
      decreases 3 - world.local.publication.value.memo.races, 0
    {
      var rebased := RebaseOntoOrigin(true);
      if rebased.Crash? { return Crash; }
      if rebased.Error? {
        ModestIsHonest(rebased.failure);
        return Error(rebased.failure);
      }
      ghost var counted := given;
      r := PublishAttempts();
      assert given[|counted| - 1] == counted[|counted| - 1];
    }

    // ----- Preserving a conflict -----

    ghost predicate Preserving(branch: string)
      reads this
    {
      && Valid() && world.local.publication.Some?
      && world.local.publication.value.memo.preservation == PushPending(branch)
    }

    /** The process has just seen the original commit on this branch. */
    ghost predicate SeenOriginal(branch: string)
      reads this
    {
      && world.local.publication.Some?
      && world.memory.seen == Some((branch, world.local.publication.value.original))
    }

    function PendingFailure(code: string, branch: string): Result<GitSuccess>
      reads this
      requires world.local.publication.Some?
    {
      Error(Failure(code, false, false, true, false, Some(world.local.publication.value.original), Some(branch)))
    }

    function ProvenFailure(code: string, branch: string): Result<GitSuccess>
      reads this
      requires world.local.publication.Some?
    {
      Error(Failure(code, false, true, false, true, Some(world.local.publication.value.original), Some(branch)))
    }

    method PreservedOutcome(branch: string) returns (r: Result<GitSuccess>)
      requires Valid() && SeenOriginal(branch)
      requires world.local.publication.value.memo.preservation == Proven(branch)
      modifies this
      ensures Progress() && Honest(r) && !r.Ok?
      ensures CleanupTrace(New())
      ensures PreservesOriginal(r, old(world.local.publication.value))
    {
      var original := world.local.publication.value.original;
      SeenIsWitnessed();
      var c := CleanupState();
      if c.Died? { return Crash; }
      WitnessRemains(old(run), branch, original);
      return if c.Done? then
          Error(Failure("publish_conflict_preserved", false, true, false, false, Some(original), Some(branch)))
        else
          Error(Failure("publish_conflict_preserved_cleanup_pending", false, true, false, true,
                        Some(original), Some(branch)));
    }

    method MarkPreservationProven(branch: string) returns (r: Result<GitSuccess>)
      requires Preserving(branch) && SeenOriginal(branch)
      modifies this
      ensures Progress() && Honest(r) && !r.Ok?
      ensures r.Error? && r.failure.preserved ==> |New()| > 0
      ensures ProofTrace(old(world.local.publication.value), branch, New())
      ensures PreservesOriginal(r, old(world.local.publication.value))
    {
      r := PendingFailure("publish_conflict_preservation_proof_pending", branch);
      var c := UpdatePreservation(Proven(branch));
      if c.Died? { return Crash; }
      if c.Failed? { return; }
      r := PreservedOutcome(branch);
    }

    method PushPendingPreservation(branch: string) returns (r: Result<GitSuccess>)
      requires Preserving(branch)
      modifies this
      ensures Progress() && Honest(r) && !r.Ok?
      ensures r.Error? && r.failure.preserved ==> |New()| > 1 && New()[0].PushBranch? && New()[0].accepted
      ensures PushTrace(old(world.local.publication.value), branch, New())
      ensures PreservesOriginal(r, old(world.local.publication.value))
    {
      var original := world.local.publication.value.original;
      var c, accepted := PushToBranch(branch, original);
      if c.Died? { return Crash; }
      if c.Failed? || !accepted { return PendingFailure("publish_conflict_preservation_failed", branch); }
      r := MarkPreservationProven(branch);
    }

    method AllocatePendingPreservation() returns (r: Result<GitSuccess>)
      requires Unpreserved() && OnOriginal(world.local) && world.local.publication.value.memo.conflicts != []
      modifies this
      ensures Progress() && Honest(r) && !r.Ok?
      ensures AllocateTrace(thread, old(world.local.publication.value), New())
      ensures PreservesOriginal(r, old(world.local.publication.value))
    {
      var timestamp: string := *;
      var branch := "conflicts/" + thread + "/" + timestamp;
      var c := UpdatePreservation(PushPending(branch));
      if !c.Done? { return Stop(c, "publish_conflict_preservation_allocation_failed"); }
      r := PushPendingPreservation(branch);
    }

    method RecoverPostAbortConflict() returns (r: Result<GitSuccess>)
      requires Unpreserved() && world.local.rebase.NoRebase?
      modifies this
      ensures Progress() && Honest(r) && !r.Ok?
      ensures ResumeTrace(thread, old(world.local), New())
      ensures PreservesOriginal(r, old(world.local.publication.value))
    {
      if !BaselineMatches(world.local.publication.value.memo) {
        return Fail("publish_conflict_post_abort_unverified");
      }
      var c := Inspect();
      if !c.Done? { return Stop(c, "publish_conflict_post_abort_unverified"); }
      var original, l := world.local.publication.value.original, world.local;
      if l.rebase.Stopped? || HeadCommit(l) != original || l.main != original || !l.head.Attached? {
        return Fail("publish_conflict_post_abort_unverified");
      }
      r := AllocatePendingPreservation();
    }

    method RetryPendingPreservation(branch: string) returns (r: Result<GitSuccess>)
      requires Preserving(branch)
      modifies this
      ensures Progress() && Honest(r) && !r.Ok?
      ensures RetryTrace(old(world.local.publication.value), branch, New())
      ensures PreservesOriginal(r, old(world.local.publication.value))
    {
      var c, found := RemoteBranchStatus(branch);
      if c.Died? { return Crash; }
      if c.Failed? { return PendingFailure("publish_conflict_preservation_verification_failed", branch); }
      if found.None? {
        r := PushPendingPreservation(branch);
      } else if found.value == world.local.publication.value.original {
        r := MarkPreservationProven(branch);
      } else {
        r := PendingFailure("publish_conflict_preservation_changed", branch);
      }
    }

    method RetryProvenCleanup(branch: string) returns (r: Result<GitSuccess>)
      requires Valid() && world.local.publication.Some?
      requires world.local.publication.value.memo.preservation == Proven(branch)
      modifies this
      ensures Progress() && Honest(r) && !r.Ok?
      ensures ProvenTrace(old(world.local.publication.value), branch, New())
      ensures PreservesOriginal(r, old(world.local.publication.value))
    {
      var original := world.local.publication.value.original;
      var c, found := RemoteBranchStatus(branch);
      if c.Died? { return Crash; }
      if c.Done? && found == Some(original) {
        r := PreservedOutcome(branch);
        return;
      }
      ProofIsWitnessed();
      r := ProvenFailure(if c.Failed? then "publish_conflict_preservation_verification_failed"
                         else "publish_conflict_preservation_changed", branch);
    }

    /** The rebase is aborted, HEAD put back on main, and both found on the original commit. */
    method AbandonRebase() returns (r: Result<()>)
      requires Publishing() && world.local.rebase.Stopped?
      modifies this
      ensures Progress()
      ensures New() == [] || New() == [RebaseAborts] || New() == [RebaseAborts, SwitchMain]
      ensures match r
              case Ok(_) => Unpreserved() && OnOriginal(world.local) && New() == [RebaseAborts, SwitchMain]
                            && world.local.publication == old(world.local.publication)
              case Error(f) => Modest(f)
              case Crash => world.memory == BLANK
    {
      var c := Inspect();
      if !c.Done? { return Stop(c, "publish_unrelated_changes"); }
      var aborted;
      c, aborted := AbortRebase();
      if !c.Done? { return Stop(c, "git_failed"); }
      if !aborted { return Fail("publish_rebase_abort_failed"); }
      c := SwitchToMain();
      if !c.Done? { return Stop(c, "git_failed"); }
      c := Inspect();
      if !c.Done? { return Stop(c, "git_failed"); }
      if HeadCommit(world.local) != world.local.publication.value.original || !world.local.head.Attached? {
        return Fail("publish_rebase_abort_failed");
      }
      return Ok(());
    }

    method PreserveConflict() returns (r: Result<GitSuccess>)
      requires Publishing() && world.local.rebase.Stopped?
      modifies this
      ensures Progress() && Honest(r) && !r.Ok?
      ensures old(world.local.publication.value.memo.conflicts) == [] ==> r == Fail("publish_conflict_not_genuine") && New() == []
      ensures AbortTrace(thread, old(world.local.publication.value), New())
      ensures PreservesOriginal(r, old(world.local.publication.value))
    {
      if world.local.publication.value.memo.conflicts == [] { return Fail("publish_conflict_not_genuine"); }
      var abandoned := AbandonRebase();
      if abandoned.Crash? { return Crash; }
      if abandoned.Error? {
        ModestIsHonest(abandoned.failure);
        return Error(abandoned.failure);
      }
      r := AllocatePendingPreservation();
    }

    // ----- Whole invocations -----

    method ResumePreserving() returns (r: Result<GitSuccess>)
      requires Valid() && world.local.publication.Some? && world.memory == FRESH
      modifies this
      ensures Progress() && Honest(r)
      ensures ResumeTrace(thread, old(world.local), New())
      ensures old(world.local.rebase.NoRebase? && !Active(world.local.publication.value.memo.preservation)
                  && world.local.publication.value.memo.conflicts == []) ==>
                r == Fail("publish_no_active_conflict") && run == old(run)
      ensures old(world.local.rebase.Stopped? && Active(world.local.publication.value.memo.preservation)) ==>
                r == Fail("publish_state_invalid") && run == old(run)
      ensures PreservesOriginal(r, old(world.local.publication.value))
    {
      var rebasing := world.local.rebase.Stopped?;
      match world.local.publication.value.memo.preservation {
        case PushPending(branch) =>
          if rebasing { return Fail("publish_state_invalid"); }
          r := RetryPendingPreservation(branch);
        case Proven(branch) =>
          if rebasing { return Fail("publish_state_invalid"); }
          r := RetryProvenCleanup(branch);
        case _ =>
          if rebasing {
            r := PreserveConflict();
          } else if world.local.publication.value.memo.conflicts != [] {
            r := RecoverPostAbortConflict();
          } else {
            r := Fail("publish_no_active_conflict");
          }
      }
    }

    method ResumePublishing() returns (r: Result<GitSuccess>)
      requires Publishing() && world.memory == FRESH
      modifies this
      ensures Progress() && Honest(r)
      ensures r.Ok? ==> FetchedThenRebased()
      ensures old(world.local.rebase.NoRebase? && world.local.publication.value.memo.conflicts != []) ==>
                r == Fail("publish_conflict_post_abort_preservation_required") && run == old(run)
      ensures NoPreservation(r)
    {
      var rebasing := world.local.rebase.Stopped?;
      if !rebasing && world.local.publication.value.memo.conflicts != [] {
        return Fail("publish_conflict_post_abort_preservation_required");
      }
      var continued: Result<()>;
      if rebasing {
        continued := ContinueRebase(false);
        if continued.Crash? { return Crash; }
        if continued.Error? {
          ModestIsHonest(continued.failure);
          return Error(continued.failure);
        }
      } else {
        var c := Inspect();
        if !c.Done? { return Stop(c, "publish_resume_dirty"); }
      }
      r := FetchRebaseAndPublish();
    }

    /** The tail that `start` and `resume` share. */
    method FetchRebaseAndPublish() returns (r: Result<GitSuccess>)
      requires Publishing() && world.memory.tipBeforePush.None?
      modifies this
      ensures Progress() && Honest(r)
      ensures r.Ok? ==> FetchedThenRebased()
      ensures NoPreservation(r)
    {
      var c := Fetch();
      if !c.Done? { return Stop(c, "git_failed"); }
      var rebased := RebaseOntoOrigin(false);
      if rebased.Crash? { return Crash; }
      if rebased.Error? {
        ModestIsHonest(rebased.failure);
        return Error(rebased.failure);
      }
      r := PublishAttempts();
    }

    method Resume(preserve: bool) returns (r: Result<GitSuccess>)
      requires Valid() && world.local.publication.Some? && world.memory == FRESH
      modifies this
      ensures Progress() && Honest(r)
      ensures preserve ==> ResumeTrace(thread, old(world.local), New())
      ensures old(OffMain(world.local)) ==> MainByCas()
      ensures old(KeepsMain(world.local, preserve)) ==> Quiet(New()) && MainStays()
      ensures !preserve && old(Active(world.local.publication.value.memo.preservation)) ==>
                r == Fail("publish_conflict_preservation_retry_required") && run == old(run)
      ensures PreservesOriginal(r, old(world.local.publication.value))
    {
      if preserve {
        r := ResumePreserving();
        PreservingIsQuiet(thread, old(world.local), New());
      } else if Active(world.local.publication.value.memo.preservation) {
        r := Fail("publish_conflict_preservation_retry_required");
      } else {
        r := ResumePublishing();
      }
      if old(OffMain(world.local)) { KeptOffMain(old(run)); }
      if old(KeepsMain(world.local, preserve)) { KeptMain(old(run)); }
    }

    /** The steps of `start` before the fetch. */
    method Begin() returns (r: Result<()>)
      requires Valid() && Startable(world.local) && world.memory == FRESH
      modifies this
      ensures Progress()
      ensures match r
              case Ok(_) => Publishing() && world.memory.tipBeforePush.None? && Stage(run.steps[|old(run.steps)|..]) >= FETCHED - 1
              case Error(f) => Modest(f)
              case Crash => world.memory == BLANK
    {
      var c := Inspect();
      if !c.Done? {
        r := Stop(c, "publish_unrelated_changes");
      } else if !Ancestor(world.graph, HeadCommit(world.local), world.local.tracking) {
        r := Fail("publish_unpublished_commits");
      } else {
        r := CommitAndDetach(|old(run.steps)|);
      }
    }

    method CommitAndDetach(ghost from: nat) returns (r: Result<()>)
      requires Valid() && Startable(world.local) && world.memory == FRESH && from <= |run.steps|
      requires Ancestor(world.graph, HeadCommit(world.local), world.local.tracking)
      modifies this
      ensures Progress()
      ensures match r
              case Ok(_) => Publishing() && world.memory.tipBeforePush.None? && Stage(run.steps[from..]) >= FETCHED - 1
              case Error(f) => Modest(f)
              case Crash => world.memory == BLANK
    {
      ghost var earlier := run;
      var c := CommitManagedIndex();
      if !c.Done? { return Stop(c, "git_failed"); }
      Passed(earlier, from, 1);
      earlier := run;
      c := CreateStateRefs();
      if !c.Done? { return Stop(c, "publish_state_update_failed"); }
      Passed(earlier, from, 2);
      earlier := run;
      c := SwitchToOriginal();
      if !c.Done? { return Stop(c, "git_failed"); }
      Passed(earlier, from, 3);
      return Ok(());
    }

    /** `start`: success means commit, refs, detached HEAD, fetch and rebase, in this order. */
    method Start() returns (r: Result<GitSuccess>)
      requires Valid() && Startable(world.local) && world.memory == FRESH
      modifies this
      ensures Progress() && Honest(r)
      ensures MainByOneCommit()
      ensures r.Ok? ==> Stage(run.steps[|old(run.steps)|..]) >= REBASED
      ensures NoPreservation(r)
    {
      var begun := Begin();
      if begun.Crash? {
        r := Crash;
      } else if begun.Error? {
        ModestIsHonest(begun.failure);
        r := Error(begun.failure);
      } else {
        ghost var earlier := run;
        r := FetchRebaseAndPublish();
        if r.Ok? { PassedToTheEnd(earlier, |old(run.steps)|); }
      }
      CommittedOnce(old(run));
    }

    /** The next milestone has been passed since an earlier point of the run. */
    lemma Passed(earlier: Run, from: nat, milestone: nat)
      requires run.Extends(earlier) && from <= |earlier.steps| && milestone > 0
      requires Stage(earlier.steps[from..]) >= milestone - 1
      requires exists k | |earlier.steps| <= k < |run.steps| :: Milestone(run.steps[k].event) == milestone
      ensures Stage(run.steps[from..]) >= milestone
    {
      var steps, a := run.steps[from..], |earlier.steps| - from;
      var k :| |earlier.steps| <= k < |run.steps| && Milestone(run.steps[k].event) == milestone;
      assert steps[..a] == earlier.steps[from..];
      StageReaches(steps, a, k - from, milestone);
      StageGrows(steps, k - from + 1);
    }

    lemma PassedToTheEnd(earlier: Run, from: nat)
      requires run.Extends(earlier) && from <= |earlier.steps| && Stage(earlier.steps[from..]) >= FETCHED - 1
      requires exists k, l | |earlier.steps| <= k < l < |run.steps| ::
                 Milestone(run.steps[k].event) == FETCHED && Milestone(run.steps[l].event) == REBASED
      ensures Stage(run.steps[from..]) >= REBASED
    {
      var k, l :| |earlier.steps| <= k < l < |run.steps|
                  && Milestone(run.steps[k].event) == FETCHED && Milestone(run.steps[l].event) == REBASED;
      var steps, a := run.steps[from..], |earlier.steps| - from;
      assert steps[..a] == earlier.steps[from..];
      StageReaches(steps, a, k - from, FETCHED);
      StageReaches(steps, k - from + 1, l - from, REBASED);
      StageGrows(steps, l - from + 1);
    }

    method Dispatch(preserve: bool) returns (r: Result<GitSuccess>)
      requires Valid() && world.memory == FRESH
      modifies this
      ensures Progress() && Honest(r)
      ensures old(KeepsMain(world.local, preserve)) ==> Quiet(New())
      ensures if old(world.local.publication.Some?) then PreservesOriginal(r, old(world.local.publication.value))
              else NoPreservation(r)
    {
      if world.local.publication.Some? {
        r := Resume(preserve);
      } else {
        r := StartAfresh(preserve);
      }
    }

    /** The part of the flow without a publication. */
    method StartAfresh(preserve: bool) returns (r: Result<GitSuccess>)
      requires Valid() && world.memory == FRESH && world.local.publication.None?
      modifies this
      ensures Progress() && Honest(r) && NoPreservation(r)
      ensures old(KeepsMain(world.local, preserve)) ==> run == old(run) && given == old(given)
    {
      if !world.local.head.Attached? {
        r := Fail("publish_ref_invalid");
      } else if world.local.rebase.Stopped? {
        r := Fail("publish_rebase_in_progress");
      } else if preserve {
        r := Fail("publish_no_active_conflict");
      } else {
        r := Start();
      }
    }

    method GitFlow(preserve: bool) returns (r: Result<GitSuccess>)
      requires Valid() && world.memory == FRESH
      modifies this
      ensures Progress() && Honest(r)
      ensures old(Startable(world.local)) ==> MainByOneCommit()
      ensures old(OffMain(world.local)) ==> MainByCas()
      ensures old(KeepsMain(world.local, preserve)) ==> Quiet(New())
      ensures if old(world.local.publication.Some?) then PreservesOriginal(r, old(world.local.publication.value))
              else NoPreservation(r)
    {
      var c := Inspect();
      if !c.Done? {
        r := Stop(c, "publish_preflight_failed");
      } else {
        r := Dispatch(preserve);
      }
      if old(OffMain(world.local)) { KeptOffMain(old(run)); }
      if old(Startable(world.local)) { CommittedOnce(old(run)); }
    }

    /** The repository was settled on the commit, and after that the commit was synchronized. */
    twostate predicate SettledAndSynchronized(commit: Commit)
      reads this
    {
      exists i, k | |old(run.steps)| <= i <= k < |run.steps| ::
        SettledOn(run.At(i).local, commit) && run.steps[k].event == Synchronize(commit)
    }

    ghost predicate HonestReport(r: Result<Commit>)
      reads this
    {
      match r
      case Ok(commit) => Contained(world, commit)
      case Error(f) => HonestFailure(f)
      case Crash => true
    }

    method SyncPublished(success: GitSuccess) returns (r: Result<Commit>)
      requires Valid() && Honest(Result<GitSuccess>.Ok(success))
      modifies this
      ensures Progress() && HonestReport(r)
      ensures r.Error? ==> r.failure.published && r.failure.commit == Some(success.pushedCommit)
      ensures r.Ok? ==> r.value == success.pushedCommit && SettledAndSynchronized(r.value)
      ensures NoPreservation(r)
      ensures success.cleanupFailed ==> !r.Ok?
      ensures !r.Crash? ==> Synchronized(success.pushedCommit)
      ensures New() == [Synchronize(success.pushedCommit)]
    {
      var commit := success.pushedCommit;
      ghost var settled := run;
      OthersAct();
      Remains(old(run));
      Step(Synchronize(commit), world);
      var c := Answer(true);
      Remains(old(run));
      assert run.At(|settled.steps|) == settled.At(|settled.steps|);
      if c.Died? { return Crash; }
      if c.Done? && !success.cleanupFailed { return Ok(commit); }
      var code := if c.Done? then "publish_complete_cleanup_failed"
                  else if success.cleanupFailed then "publish_complete_index_stale_cleanup_pending"
                  else "publish_complete_index_stale";
      return Error(Failure(code, true, false, false, false, Some(commit), None));
    }

    /** The publication under the repository's lock, then the synchronization. */
    method PublishAndSync(preserve: bool) returns (r: Result<Commit>)
      requires Valid() && world.memory == FRESH
      modifies this
      ensures Progress() && HonestReport(r)
      ensures r.Error? && r.failure.preserved ==>
                old(world.local.publication.Some?)
                && r.failure.commit == Some(old(world.local.publication.value.original))
      ensures r.Ok? ==> SettledAndSynchronized(r.value)
      ensures old(KeepsMain(world.local, preserve)) ==> Quiet(New())
    {
      var flow := GitFlow(preserve);
      match flow {
        case Crash => r := Crash;
        case Error(f) => r := Error(f);
        case Ok(success) => r := SyncPublished(success);
      }
    }

    /** The invocation proper, and the end of its process. */
    method Invoke(preserve: bool) returns (r: Result<Commit>)
      requires Valid() && world.memory == FRESH
      modifies this
      ensures Progress() && HonestReport(r) && world.memory == BLANK
      ensures r.Error? && r.failure.preserved ==>
                old(world.local.publication.Some?)
                && r.failure.commit == Some(old(world.local.publication.value.original))
      ensures r.Ok? ==> SettledAndSynchronized(r.value)
      ensures old(KeepsMain(world.local, preserve)) ==> Quiet(New())
    {
      r := PublishAndSync(preserve);
      ghost var ended := run;
      ghost var settled: int, k: int := 0, 0;
      if r.Ok? {
        settled, k :| |old(run.steps)| <= settled <= k < |run.steps|
                      && SettledOn(run.At(settled).local, r.value) && run.steps[k].event == Synchronize(r.value);
      }
      Die();
      Remains(ended);
      if r.Ok? { assert run.steps[k] == ended.steps[k] && run.At(settled) == ended.At(settled); }
      if r.Error? && (r.failure.preserved || r.failure.code == "publish_race_exhausted") {
        WitnessRemains(ended, r.failure.branch.value, r.failure.commit.value);
      }
    }

    /** What a process does once it has begun. */
    method Attempt(preserve: bool) returns (r: Result<Commit>)
      requires Valid() && world.memory == FRESH
      modifies this
      ensures Progress() && HonestReport(r) && world.memory == BLANK
      ensures r.Error? && r.failure.preserved ==>
                old(world.local.publication.Some?)
                && r.failure.commit == Some(old(world.local.publication.value.original))
      ensures r.Ok? ==> SettledAndSynchronized(r.value)
      ensures old(OffMain(world.local)) ==> MainByCas()
      ensures old(Startable(world.local)) ==> MainByOneCommit()
      ensures old(KeepsMain(world.local, preserve)) ==> MainStays()
      ensures Pushes(run, |old(run.steps)|, |run.steps|) <= 3 - RacesNow(old(world))
    {
      if !ValidThreadId(thread) {
        Die();
        r := Fail("publish_thread_id_invalid");
      } else {
        r := Invoke(preserve);
      }
      if old(OffMain(world.local)) { KeptOffMain(old(run)); }
      if old(Startable(world.local)) { CommittedOnce(old(run)); }
      if old(KeepsMain(world.local, preserve)) { KeptMain(old(run)); }
      PushedAtMostThrice(old(run));
    }

    /**
     One invocation of `kb publish`, from any state that earlier invocations, however they
     ended, and the owner may have left.
     */
    method RunWith(preserve: bool) returns (r: Result<Commit>)
      requires Valid() && world.memory == BLANK
      modifies this
      ensures Recorded() && HonestReport(r) && world.memory == BLANK
      ensures r.Error? && r.failure.preserved ==>
                old(world.local.publication.Some?)
                && r.failure.commit == Some(old(world.local.publication.value.original))
      ensures r.Ok? ==> SettledAndSynchronized(r.value)
      ensures old(OffMain(world.local)) ==> MainByCas()
      ensures old(Startable(world.local)) ==> MainByOneCommit()
      ensures old(KeepsMain(world.local, preserve)) ==> MainStays()
      ensures PushesUnpublished()
      ensures Pushes(run, |old(run.steps)|, |run.steps|) <= 3 - RacesNow(old(world))
    {
      Step(ProcessBegins, world.(memory := FRESH));
      r := Attempt(preserve);
      CommitsFrom(run, |old(run.steps)|, |run.steps|);
      PushesFrom(run, |old(run.steps)|, |run.steps|);
      PushedUnpublished(old(run));
    }

    /** Between invocations the owner and the other writers act. */
    method Interlude()
      requires Valid() && world.memory == BLANK
      modifies this
      ensures Recorded() && world.memory == BLANK
    {
      OthersAct();
      var next: World := *;
      if OwnerStep(world, next) { Step(Owner, next); }
    }

    /** Any number of invocations: the record stays a legal run from end to end. */
    method Serve(preserves: seq<bool>)
      requires Valid() && world.memory == BLANK
      modifies this
      ensures Recorded() && world.memory == BLANK
    {
      for i := 0 to |preserves|
        invariant Recorded() && world.memory == BLANK
      {
        Interlude();
        var report := RunWith(preserves[i]);
      }
    }

    // ----- What holds of every step since an earlier point of the invocation -----

    lemma StillUninterrupted(earlier: Run)
      requires Valid() && run.Extends(earlier) && began <= |earlier.steps|
      ensures Uninterrupted(run, |earlier.steps|, |run.steps|)
      ensures run.At(|earlier.steps|) == earlier.At(|earlier.steps|)
    {
    }

    lemma KeptOffMain(earlier: Run)
      requires Valid() && run.Extends(earlier) && began <= |earlier.steps|
      requires OffMain(earlier.At(|earlier.steps|).local)
      ensures forall k | |earlier.steps| <= k < |run.steps| :: ByCas(run.steps[k])
    {
      StillUninterrupted(earlier);
      InvocationMovesMainByCas(run, |earlier.steps|, |run.steps|);
    }

    lemma KeptMain(earlier: Run)
      requires Valid() && run.Extends(earlier) && began <= |earlier.steps|
      requires Commands(earlier.steps) <= given && Quiet(given[|Commands(earlier.steps)|..])
      ensures forall k | |earlier.steps| <= k < |run.steps| :: run.steps[k].post.local.main == run.steps[k].pre.local.main
    {
      StillUninterrupted(earlier);
      assert run.steps[..|earlier.steps|] == earlier.steps;
      forall k | |earlier.steps| <= k < |run.steps|
        ensures run.steps[k].post.local.main == run.steps[k].pre.local.main
      {
        QuietKeepsMain(run, |earlier.steps|, k);
      }
    }

    lemma PushedAtMostThrice(earlier: Run)
      requires Valid() && run.Extends(earlier) && began <= |earlier.steps|
      ensures Pushes(run, |earlier.steps|, |run.steps|) <= 3 - RacesNow(earlier.At(|earlier.steps|))
    {
      StillUninterrupted(earlier);
      InvocationPushesAtMostThrice(run, |earlier.steps|, |run.steps|);
    }

    lemma CommittedOnce(earlier: Run)
      requires Valid() && run.Extends(earlier) && began <= |earlier.steps|
      requires Startable(earlier.At(|earlier.steps|).local) && earlier.At(|earlier.steps|).memory.phase.Free?
      ensures forall k | |earlier.steps| <= k < |run.steps| :: ByCas(run.steps[k]) || run.steps[k].event.CommitOnMain?
      ensures Commits(run, |earlier.steps|, |run.steps|) <= 1
    {
      StillUninterrupted(earlier);
      FreshMovesMainOnce(run, |earlier.steps|, |run.steps|);
    }

    lemma PushedUnpublished(earlier: Run)
      requires Valid() && run.Extends(earlier)
      ensures forall k | |earlier.steps| <= k < |run.steps| && run.steps[k].event.PushMain? ::
                !Ancestor(run.steps[k].pre.graph, run.steps[k].event.commit, run.steps[k].pre.local.tracking)
    {
      forall k | |earlier.steps| <= k < |run.steps| && run.steps[k].event.PushMain?
        ensures !Ancestor(run.steps[k].pre.graph, run.steps[k].event.commit, run.steps[k].pre.local.tracking)
      {
        NeverRepushesKnownCommit(run, k);
        assert run.LegalAt(k);
      }
    }

    // ----- Facts that outlast the steps of others -----

    /** What remote main contained at the end of an earlier run, it contains now. */
    lemma Remains(earlier: Run)
      requires Valid() && earlier.Valid() && run.Extends(earlier)
      ensures forall c :: Contained(earlier.At(|earlier.steps|), c) ==> Contained(world, c)
    {
      assert run.At(|earlier.steps|) == earlier.At(|earlier.steps|);
      RemoteMainOnlyAdvances(run, |earlier.steps|, |run.steps|);
    }

    /** Ancestry between commits that existed does not change when the graph grows. */
    static lemma StillKnown(pre: World, post: World, a: Commit, c: Commit)
      requires pre.graph <= post.graph && c < |pre.graph|
      ensures Ancestor(pre.graph, a, c) <==> Ancestor(post.graph, a, c)
    {
      AncestorStable(pre.graph, post.graph, a, c);
    }

    static lemma AncestorSelf(w: World, c: Commit)
      requires c < |w.graph|
      ensures Ancestor(w.graph, c, c)
    {}
  }
}

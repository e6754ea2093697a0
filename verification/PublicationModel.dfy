/**
 The world a publication acts on, what each Git command does to it, what the publisher
 promises about the commands it gives, and what follows for every run.

 `GitStep` is an assumption about Git and about the other writers: one command is one
 atomic step, a push is never forced, other writers only fast-forward remote main.
 `Promise` is no assumption: `Publisher` (Publication.dfy) proves it of every command
 its methods give. The theorems here are about runs whose steps keep to both.
 */
module PublicationModel {
  import opened Wrappers
  import opened CommitGraph
  import opened StateCodec

  /** HEAD follows refs/heads/main or names a commit. */
  datatype Head = Attached | Detached(commit: Commit)

  /** A stopped rebase remembers the HEAD it was started from. */
  datatype Rebase = NoRebase | Stopped(from: Head)

  /** The two refs of an active publication: the original commit and the decoded state blob. */
  datatype Publication = Publication(original: Commit, memo: Memo)

  datatype Local = Local(
    main: Commit,
    head: Head,
    rebase: Rebase,
    tracking: Commit,
    publication: Option<Publication>)

  datatype Remote = Remote(main: Commit, branches: map<string, Commit>)

  /**
   How far the running process is. It may move HEAD while it is free; it is not between its
   first commit and the detached HEAD, nor once main is pushed or HEAD is put back on main.
   */
  datatype Phase = NoProcess | Free | Committed | Closed

  /**
   What the running process knows and a crash forgets: the tracking ref when it last pushed
   main in vain and has not counted that race, and the last remote branch it saw at, or
   pushed to, a commit.
   */
  datatype Memory = Memory(tipBeforePush: Option<Commit>, seen: Option<(string, Commit)>, phase: Phase)

  const BLANK := Memory(None, None, NoProcess)
  const FRESH := Memory(None, None, Free)

  datatype World = World(graph: Graph, local: Local, remote: Remote, memory: Memory)

  datatype Event =
    | Others
    | Owner
    | ProcessBegins
    | ProcessEnds
    | CommitOnMain
    | CreateRefs
    | UpdateRefs(memo: Memo)
    | DeleteRefs
    | SwitchDetach(commit: Commit)
    | SwitchMain
    | UpdateMain(commit: Commit)
    | FetchMain
    | HeadMoves
    | RebaseStops
    | RebaseAborts
    | PushMain(commit: Commit, accepted: bool)
    | PushBranch(branch: string, commit: Commit, accepted: bool)
    | Observe(branch: string, found: Option<Commit>)
    | Synchronize(commit: Commit)

  datatype Entry = Entry(pre: World, event: Event, post: World)

  // ----- Reading the world -----

  /** `current_head`. */
  function HeadCommit(l: Local): Commit {
    match l.head
    case Attached => l.main
    case Detached(commit) => commit
  }

  predicate Known(g: Graph, l: Local, r: Remote) {
    && l.main < |g| && l.tracking < |g| && r.main < |g|
    && (l.head.Detached? ==> l.head.commit < |g|)
    && (l.rebase.Stopped? && l.rebase.from.Detached? ==> l.rebase.from.commit < |g|)
    && (l.publication.Some? ==> l.publication.value.original < |g|)
    && (forall b | b in r.branches :: r.branches[b] < |g|)
  }

  /** The commit is part of the history of remote main. */
  predicate Contained(w: World, c: Commit) {
    Ancestor(w.graph, c, w.remote.main)
  }

  predicate Active(p: Preservation) {
    p.PushPending? || p.Proven?
  }

  predicate SoundMemo(m: Memo) {
    0 <= m.races <= 3 && (Active(m.preservation) ==> m.conflicts != [])
  }

  predicate Invariant(w: World) {
    && WellFormed(w.graph)
    && Known(w.graph, w.local, w.remote)
    && Ancestor(w.graph, w.local.tracking, w.remote.main)
    && (w.local.publication.Some? ==> SoundMemo(w.local.publication.value.memo))
  }

  /** A run starts without a publication, or with one an earlier release left behind. */
  predicate Initial(w: World) {
    && Invariant(w)
    && w.memory == BLANK
    && (w.local.publication.Some? ==> !w.local.publication.value.memo.preservation.Proven?)
  }

  // ----- What Git and the other parties do -----

  predicate GraphGrows(pre: World, post: World) {
    pre.graph <= post.graph && WellFormed(post.graph)
  }

  /** Remote main keeps all its history. */
  predicate Descends(pre: World, post: World) {
    GraphGrows(pre, post) && Ancestor(post.graph, pre.remote.main, post.remote.main)
  }

  /** Other writers fast-forward main and do as they like with other branches. */
  predicate OthersStep(pre: World, post: World) {
    && Descends(pre, post)
    && post.local == pre.local && post.memory == pre.memory
    && Known(post.graph, post.local, post.remote)
  }

  /** Between runs the owner may move anything local but the refs under refs/clamp. */
  predicate OwnerStep(pre: World, post: World) {
    && GraphGrows(pre, post)
    && post.remote == pre.remote && post.memory == pre.memory
    && post.local.publication == pre.local.publication
    && (post.local.tracking == pre.local.tracking || post.local.tracking == pre.remote.main)
    && Known(post.graph, post.local, post.remote)
  }

  /** A commit made by a local command; it may be new. */
  predicate LocalStep(pre: World, post: World) {
    && GraphGrows(pre, post)
    && post.remote == pre.remote
    && Known(post.graph, post.local, post.remote)
  }

  function MainPushed(pre: World, c: Commit): Remote {
    pre.remote.(main := c)
  }

  function BranchPushed(pre: World, b: string, c: Commit): Remote {
    pre.remote.(branches := pre.remote.branches[b := c])
  }

  predicate FastForward(g: Graph, before: Option<Commit>, after: Commit) {
    before.None? || Ancestor(g, before.value, after)
  }

  function BranchTip(r: Remote, b: string): Option<Commit> {
    if b in r.branches then Some(r.branches[b]) else None
  }

  /**
   A push that is reported as accepted moved its ref, and only forward. A push that is
   not may have been refused, or may have moved the ref before the answer was lost.
   */
  predicate PushOutcome(accepted: bool, forward: bool, pre: Remote, pushed: Remote, post: Remote) {
    (post == pushed && forward) || (!accepted && post == pre)
  }

  /** Counting a race settles the push it was lost by. */
  function AfterUpdate(pre: World, memo: Memo): Memory
    requires pre.local.publication.Some?
  {
    if memo.races > pre.local.publication.value.memo.races then pre.memory.(tipBeforePush := None) else pre.memory
  }

  predicate GitStep(pre: World, event: Event, post: World) {
    match event
    case Others => OthersStep(pre, post)
    case Owner => OwnerStep(pre, post)
    case ProcessBegins => post == pre.(memory := FRESH)
    case ProcessEnds => post == pre.(memory := BLANK)
    case CommitOnMain =>
      && LocalStep(pre, post) && pre.local.head.Attached?
      && post.local == pre.local.(main := post.local.main)
      && post.memory == pre.memory.(phase := Committed)
    case CreateRefs =>
      && pre.local.publication.None?
      && post == pre.(local := pre.local.(publication :=
           Some(Publication(HeadCommit(pre.local), Memo(0, NotStarted, [], [])))))
    case UpdateRefs(memo) =>
      && pre.local.publication.Some?
      && post == pre.(local := pre.local.(publication := Some(pre.local.publication.value.(memo := memo))),
                      memory := AfterUpdate(pre, memo))
    case DeleteRefs =>
      && pre.local.publication.Some?
      && post == pre.(local := pre.local.(publication := None), memory := pre.memory.(phase := Closed))
    case SwitchDetach(commit) =>
      post == pre.(local := pre.local.(head := Detached(commit)), memory := pre.memory.(phase := Free))
    case SwitchMain =>
      post == pre.(local := pre.local.(head := Attached), memory := pre.memory.(phase := Closed))
    case UpdateMain(commit) =>
      && pre.local.publication.Some? && pre.local.main == pre.local.publication.value.original
      && post == pre.(local := pre.local.(main := commit))
    case FetchMain => post == pre.(local := pre.local.(tracking := pre.remote.main))
    case HeadMoves =>
      && LocalStep(pre, post) && post.memory == pre.memory
      && Moved(if pre.local.rebase.Stopped? then pre.local.rebase.from else pre.local.head,
               pre.local, post.local)
    case RebaseStops =>
      && LocalStep(pre, post) && post.memory == pre.memory && post.local.head.Detached?
      && post.local == pre.local.(
           head := post.local.head,
           rebase := if pre.local.rebase.Stopped? then pre.local.rebase else Stopped(pre.local.head))
    case RebaseAborts =>
      && pre.local.rebase.Stopped?
      && post == pre.(local := pre.local.(head := pre.local.rebase.from, rebase := NoRebase))
    case PushMain(commit, accepted) =>
      && post == pre.(remote := post.remote,
                      memory := if accepted then pre.memory.(phase := Closed)
                                else pre.memory.(tipBeforePush := Some(pre.local.tracking)))
      && PushOutcome(accepted, Ancestor(pre.graph, pre.remote.main, commit),
                     pre.remote, MainPushed(pre, commit), post.remote)
    case PushBranch(branch, commit, accepted) =>
      && post == pre.(remote := post.remote,
                      memory := pre.memory.(seen := if accepted then Some((branch, commit)) else None))
      && PushOutcome(accepted, FastForward(pre.graph, BranchTip(pre.remote, branch), commit),
                     pre.remote, BranchPushed(pre, branch, commit), post.remote)
    case Observe(branch, found) =>
      && found == BranchTip(pre.remote, branch)
      && post == pre.(memory := pre.memory.(seen :=
           if found.Some? then Some((branch, found.value)) else None))
    case Synchronize(_) => post == pre
  }

  /**
   A rebase that completes, a rebase that is continued to its end, and an amend all move
   the branch HEAD was on: refs/heads/main if HEAD was attached when the rebase began.
   Nothing is assumed about the commit they land on.
   */
  predicate Moved(from: Head, pre: Local, post: Local) {
    && post.rebase.NoRebase?
    && (if from.Attached? then post == pre.(main := post.main, head := Attached, rebase := NoRebase)
        else post.head.Detached? && post == pre.(head := post.head, rebase := NoRebase))
  }

  // ----- What the publisher promises -----

  /** A compact UTC time such as 20260102T030405Z. */
  predicate Timestamp(t: string) {
    && |t| == 16
    && forall i | 0 <= i < 16 ::
         if i == 8 then t[i] == 'T' else if i == 15 then t[i] == 'Z' else '0' <= t[i] <= '9'
  }

  /** `valid_preserved_branch`: the thread's conflicts folder and a UTC timestamp. */
  predicate ValidPreservedBranch(thread: string, b: string) {
    var prefix := "conflicts/" + thread + "/";
    && prefix <= b && |b| == |prefix| + 16
    && Timestamp(b[|prefix|..])
  }

  predicate RecoveryBranch(thread: string, b: string) {
    "recovery/" + thread + "/" <= b
  }

  function Cleared(m: Memo): Memo {
    m.(conflicts := [], baseline := [])
  }

  /** The changes of state the publisher writes, each with what it knew when it wrote it. */
  predicate MemoPromise(thread: string, w: World, m: Memo) {
    w.local.publication.Some? &&
    var p := w.local.publication.value;
    match m.preservation
    case PushPending(b) =>
      && !Active(p.memo.preservation)
      && m == p.memo.(preservation := PushPending(b)) && m.conflicts != []
      && ValidPreservedBranch(thread, b)
      && HeadCommit(w.local) == p.original && w.local.main == p.original
      && w.local.head.Attached? && w.local.rebase.NoRebase?
    case Proven(b) =>
      && p.memo.preservation == PushPending(b)
      && m == p.memo.(preservation := Proven(b))
      && w.memory.seen == Some((b, p.original))
    case _ =>
      && m.preservation == p.memo.preservation
      && (|| (p.memo.conflicts == [] && m.conflicts != [] && m.races == p.memo.races)
          || m == Cleared(p.memo)
          || CountsRace(w, p.memo, m))
  }

  /** One more race, after a main push and a fetch that brought another tip. */
  predicate CountsRace(w: World, before: Memo, after: Memo) {
    && after == Cleared(before).(races := before.races + 1)
    && before.races < 3
    && w.memory.tipBeforePush.Some? && w.memory.tipBeforePush.value != w.local.tracking
  }

  predicate Unpublished(w: World, c: Commit) {
    && c == HeadCommit(w.local)
    && !Ancestor(w.graph, c, w.local.tracking)
  }

  /** When the two refs may go: the work they stand for is safe elsewhere. */
  predicate Durable(thread: string, w: World) {
    w.local.publication.Some? &&
    var p := w.local.publication.value;
    || (w.local.head.Attached? && Contained(w, w.local.main) && !Active(p.memo.preservation))
    || (p.memo.preservation.Proven? && w.memory.seen == Some((p.memo.preservation.branch, p.original)))
    || (p.memo.races == 3 && w.memory.seen.Some? && RecoveryBranch(thread, w.memory.seen.value.0)
        && w.memory.seen.value.1 == HeadCommit(w.local))
  }

  predicate Promise(thread: string, w: World, event: Event) {
    match event
    case Others | ProcessEnds | FetchMain => true
    case Owner | ProcessBegins => w.memory == BLANK
    case CommitOnMain =>
      && w.local.publication.None? && w.local.rebase.NoRebase? && w.memory.phase.Free?
      && Ancestor(w.graph, w.local.main, w.local.tracking)
    case CreateRefs => w.local.head.Attached? && w.local.rebase.NoRebase? && w.memory.phase.Committed?
    case UpdateRefs(memo) => MemoPromise(thread, w, memo)
    case DeleteRefs => Durable(thread, w)
    case SwitchDetach(commit) =>
      && w.memory.phase.Committed?
      && w.local.publication.Some? && commit == w.local.publication.value.original
    case HeadMoves | RebaseStops | RebaseAborts =>
      && w.memory.phase.Free?
      && w.local.publication.Some? && !Active(w.local.publication.value.memo.preservation)
    case SwitchMain =>
      w.local.publication.Some? && !Active(w.local.publication.value.memo.preservation)
    case UpdateMain(commit) => Contained(w, commit)
    case PushMain(commit, _) =>
      && w.memory.phase.Free? && w.memory.tipBeforePush.None?
      && w.local.publication.Some?
      && !Active(w.local.publication.value.memo.preservation)
      && w.local.publication.value.memo.races < 3
      && Unpublished(w, commit)
    case PushBranch(branch, commit, _) =>
      && w.local.publication.Some? &&
      var p := w.local.publication.value;
      || (p.memo.preservation == PushPending(branch) && commit == p.original)
      || (!Active(p.memo.preservation) && p.memo.races == 3 && RecoveryBranch(thread, branch)
          && Unpublished(w, commit))
    case Observe(_, _) => true
    case Synchronize(commit) => Contained(w, commit)
  }

  // ----- Runs -----

  predicate Legal(thread: string, e: Entry) {
    GitStep(e.pre, e.event, e.post) && Promise(thread, e.pre, e.event)
  }

  datatype Run = Run(thread: string, start: World, steps: seq<Entry>) {
    function At(i: nat): World
      requires i <= |steps|
    {
      if i == 0 then start else steps[i - 1].post
    }

    predicate LegalAt(i: nat)
      requires i < |steps|
    {
      steps[i].pre == At(i) && Legal(thread, steps[i])
    }

    predicate Valid() {
      Initial(start) && forall i | 0 <= i < |steps| :: LegalAt(i)
    }

    predicate Extends(earlier: Run) {
      thread == earlier.thread && start == earlier.start && earlier.steps <= steps
    }
  }

  // ----- Every step -----

  lemma ContainedStays(pre: World, post: World, c: Commit)
    requires Invariant(pre) && Descends(pre, post) && Contained(pre, c)
    ensures Contained(post, c)
  {
    AncestorStable(pre.graph, post.graph, c, pre.remote.main);
    AncestorTransitive(post.graph, c, pre.remote.main, post.remote.main);
  }

  lemma StepDescends(pre: World, event: Event, post: World)
    requires Invariant(pre) && GitStep(pre, event, post)
    ensures Descends(pre, post)
  {
    if GraphGrows(pre, post) {
      AncestorStable(pre.graph, post.graph, pre.remote.main, pre.remote.main);
    }
  }

  lemma MemoStaysSound(thread: string, w: World, m: Memo)
    requires Invariant(w) && MemoPromise(thread, w, m)
    ensures SoundMemo(m)
  {}

  lemma StepKeepsInvariant(thread: string, e: Entry)
    requires Invariant(e.pre) && Legal(thread, e)
    ensures Invariant(e.post)
  {
    StepDescends(e.pre, e.event, e.post);
    ContainedStays(e.pre, e.post, e.pre.local.tracking);
    if e.event.UpdateRefs? { MemoStaysSound(thread, e.pre, e.event.memo); }
    if e.event.UpdateMain? { AncestorOlder(e.pre.graph, e.event.commit, e.pre.remote.main); }
  }

  // ----- Every run -----

  lemma {:induction false} RunKeepsInvariant(r: Run, i: nat)
    requires r.Valid() && i <= |r.steps|
    ensures Invariant(r.At(i))
  {
    if i > 0 {
      RunKeepsInvariant(r, i - 1);
      assert r.LegalAt(i - 1);
      StepKeepsInvariant(r.thread, r.steps[i - 1]);
    }
  }

  /** Remote main never loses a commit, whoever acts and wherever a process dies. */
  lemma {:induction false} RemoteMainOnlyAdvances(r: Run, i: nat, j: nat)
    requires r.Valid() && i <= j <= |r.steps|
    ensures Descends(r.At(i), r.At(j))
    ensures forall c :: Contained(r.At(i), c) ==> Contained(r.At(j), c)
    decreases j
  {
    RunKeepsInvariant(r, i);
    if i == j {
      AncestorOlder(r.At(i).graph, r.At(i).local.tracking, r.At(i).remote.main);
    } else {
      RemoteMainOnlyAdvances(r, i, j - 1);
      RunKeepsInvariant(r, j - 1);
      var e := r.steps[j - 1];
      assert r.LegalAt(j - 1);
      StepDescends(e.pre, e.event, e.post);
      ContainedStays(e.pre, e.post, r.At(i).remote.main);
      forall c | Contained(r.At(i), c)
        ensures Contained(r.At(j), c)
      {
        ContainedStays(e.pre, e.post, c);
      }
    }
  }

  /** The commit a synchronization indexes is in remote main then and ever after. */
  lemma SynchronizedIsPublished(r: Run, k: nat, j: nat)
    requires r.Valid() && k <= j <= |r.steps| && k < |r.steps| && r.steps[k].event.Synchronize?
    ensures Contained(r.At(j), r.steps[k].event.commit)
  {
    assert r.LegalAt(k);
    RemoteMainOnlyAdvances(r, k, j);
  }

  /** No main push carries a commit that the tracking ref already holds. */
  lemma NeverRepushesKnownCommit(r: Run, k: nat)
    requires r.Valid() && k < |r.steps| && r.steps[k].event.PushMain?
    ensures !Ancestor(r.At(k).graph, r.steps[k].event.commit, r.At(k).local.tracking)
    ensures r.At(k).local.publication.Some? && MemoAt(r, k).races < 3
  {
    assert r.LegalAt(k);
  }

  /** One publication lasts from step `i` to step `j`: its refs are there all the time. */
  predicate Kept(r: Run, i: nat, j: nat)
    requires i <= j <= |r.steps|
  {
    forall k | i <= k <= j :: r.At(k).local.publication.Some?
  }

  function MemoAt(r: Run, i: nat): Memo
    requires i <= |r.steps| && r.At(i).local.publication.Some?
  {
    r.At(i).local.publication.value.memo
  }

  function Original(r: Run, i: nat): Commit
    requires i <= |r.steps| && r.At(i).local.publication.Some?
  {
    r.At(i).local.publication.value.original
  }

  /** Not started or legacy unresolved, then pending on one branch, then proven on it. */
  predicate NoEarlier(p: Preservation, q: Preservation) {
    match p
    case Proven(b) => q == Proven(b)
    case PushPending(b) => q == PushPending(b) || q == Proven(b)
    case _ => q == p || Active(q)
  }

  lemma StepKeepsPublication(thread: string, e: Entry)
    requires Legal(thread, e) && e.pre.local.publication.Some? && e.post.local.publication.Some?
    ensures e.post.local.publication.value.original == e.pre.local.publication.value.original
    ensures NoEarlier(e.pre.local.publication.value.memo.preservation,
                      e.post.local.publication.value.memo.preservation)
  {}

  /** Within one publication the original commit stays and preservation only moves forward. */
  lemma {:induction false} PreservationOnlyAdvances(r: Run, i: nat, j: nat)
    requires r.Valid() && i <= j <= |r.steps| && Kept(r, i, j)
    ensures Original(r, i) == Original(r, j)
    ensures NoEarlier(MemoAt(r, i).preservation, MemoAt(r, j).preservation)
    ensures Active(MemoAt(r, j).preservation) ==> MemoAt(r, j).conflicts != []
    decreases j
  {
    RunKeepsInvariant(r, j);
    if i < j {
      PreservationOnlyAdvances(r, i, j - 1);
      assert r.LegalAt(j - 1);
      StepKeepsPublication(r.thread, r.steps[j - 1]);
    }
  }

  /** A successful push of `c` to the remote branch, or a look that found it there. */
  predicate Evidence(e: Event, branch: string, c: Commit) {
    e == PushBranch(branch, c, true) || e == Observe(branch, Some(c))
  }

  /** Step `k` was such a push or look, and the remote branch was at the commit when it was done. */
  predicate Witness(r: Run, k: nat, branch: string, c: Commit)
    requires k < |r.steps|
  {
    Evidence(r.steps[k].event, branch, c) && BranchTip(r.At(k + 1).remote, branch) == Some(c)
  }

  lemma {:induction false} SeenHasEvidence(r: Run, i: nat)
    requires r.Valid() && i <= |r.steps| && r.At(i).memory.seen.Some?
    ensures var (branch, c) := r.At(i).memory.seen.value;
            exists k | 0 <= k < i :: Witness(r, k, branch, c)
    decreases i
  {
    if i > 0 {
      var e := r.steps[i - 1];
      assert r.LegalAt(i - 1);
      if e.event.PushBranch? || e.event.Observe? {
        var (branch, c) := r.At(i).memory.seen.value;
        assert Witness(r, i - 1, branch, c);
      } else {
        SeenHasEvidence(r, i - 1);
      }
    }
  }

  /**
   A state that says proven tells the truth about the past: at an earlier step of the run
   the original commit was pushed to the recorded branch, or was found there.
   */
  lemma {:induction false} ProofHasEvidence(r: Run, i: nat)
    requires r.Valid() && i <= |r.steps| && r.At(i).local.publication.Some?
    requires MemoAt(r, i).preservation.Proven?
    ensures exists k | 0 <= k < i :: Witness(r, k, MemoAt(r, i).preservation.branch, Original(r, i))
    decreases i
  {
    if i > 0 {
      var e := r.steps[i - 1];
      assert r.LegalAt(i - 1);
      if e.event.UpdateRefs? && !MemoAt(r, i - 1).preservation.Proven? {
        SeenHasEvidence(r, i - 1);
        var (branch, c) := r.At(i - 1).memory.seen.value;
        assert branch == MemoAt(r, i).preservation.branch && c == Original(r, i);
      } else {
        ProofHasEvidence(r, i - 1);
        var branch, c := MemoAt(r, i - 1).preservation.branch, Original(r, i - 1);
        assert branch == MemoAt(r, i).preservation.branch && c == Original(r, i);
      }
    }
  }

  /** Once proof is recorded, the publication pushes nothing any more, to any ref. */
  lemma NothingPushedAfterProof(r: Run, i: nat, j: nat)
    requires r.Valid() && i <= j < |r.steps| && Kept(r, i, j)
    requires MemoAt(r, i).preservation.Proven?
    ensures !r.steps[j].event.PushBranch? && !r.steps[j].event.PushMain?
  {
    PreservationOnlyAdvances(r, i, j);
    assert r.LegalAt(j);
  }

  /** Step `k` of the run counts a race. */
  predicate IsRace(r: Run, k: nat)
    requires k < |r.steps|
  {
    && r.steps[k].event.UpdateRefs? && r.steps[k].pre.local.publication.Some?
    && r.steps[k].event.memo.races > r.steps[k].pre.local.publication.value.memo.races
  }

  function Races(r: Run, i: nat, j: nat): nat
    requires i <= j <= |r.steps|
    decreases j
  {
    if i == j then 0 else Races(r, i, j - 1) + (if IsRace(r, j - 1) then 1 else 0)
  }

  /** The stored number is the number of races counted; nothing resets or inflates it. */
  lemma {:induction false} RacesAreCounted(r: Run, i: nat, j: nat)
    requires r.Valid() && i <= j <= |r.steps| && Kept(r, i, j)
    ensures MemoAt(r, j).races == MemoAt(r, i).races + Races(r, i, j)
    ensures 0 <= MemoAt(r, j).races <= 3
    decreases j
  {
    RunKeepsInvariant(r, j);
    if i < j {
      RacesAreCounted(r, i, j - 1);
      assert r.LegalAt(j - 1);
    }
  }

  /** A main push that was not accepted, with no other and no end of the process between it and step `i`. */
  predicate LastLostPush(r: Run, k: nat, i: nat)
    requires k < i <= |r.steps|
  {
    && r.steps[k].event.PushMain? && !r.steps[k].event.accepted
    && forall l | k < l < i :: !r.steps[l].event.PushMain? && !r.steps[l].event.ProcessEnds?
  }

  lemma {:induction false} PushRemembered(r: Run, i: nat)
    requires r.Valid() && i <= |r.steps| && r.At(i).memory.tipBeforePush.Some?
    ensures exists k | 0 <= k < i ::
              LastLostPush(r, k, i) && r.At(k).local.tracking == r.At(i).memory.tipBeforePush.value
    decreases i
  {
    if i > 0 {
      var e := r.steps[i - 1];
      assert r.LegalAt(i - 1);
      if e.event.PushMain? {
        assert LastLostPush(r, i - 1, i);
      } else {
        PushRemembered(r, i - 1);
        var k :| 0 <= k < i - 1
                 && LastLostPush(r, k, i - 1) && r.At(k).local.tracking == r.At(i - 1).memory.tipBeforePush.value;
        assert LastLostPush(r, k, i);
      }
    }
  }

  /**
   A race is counted only by the process that pushed main before it and was not accepted,
   after a fetch brought a tip other than the one known at that push.
   */
  lemma RaceFollowsLostPush(r: Run, k: nat)
    requires r.Valid() && k < |r.steps| && IsRace(r, k)
    ensures exists j | 0 <= j < k :: LastLostPush(r, j, k) && r.At(j).local.tracking != r.At(k).local.tracking
  {
    assert r.LegalAt(k);
    PushRemembered(r, k);
  }

  predicate SameProcess(r: Run, j: nat, k: nat)
    requires j <= k <= |r.steps|
  {
    forall l | j <= l < k :: !r.steps[l].event.ProcessEnds?
  }

  lemma {:induction false} LostPushStaysUncounted(r: Run, j: nat, k: nat)
    requires r.Valid() && j < k <= |r.steps| && r.steps[j].event.PushMain? && SameProcess(r, j, k)
    requires forall l | j < l < k :: !IsRace(r, l)
    ensures r.At(k).memory.tipBeforePush.Some? || r.At(k).memory.phase.Closed?
    decreases k
  {
    assert r.LegalAt(j) && r.LegalAt(k - 1);
    if j + 1 < k {
      assert !IsRace(r, k - 1);
      LostPushStaysUncounted(r, j, k - 1);
      BeginsOnlyAfterTheEnd(r, j, k - 1);
    }
  }

  /** While a process lives no other begins. */
  lemma {:induction false} BeginsOnlyAfterTheEnd(r: Run, j: nat, k: nat)
    requires r.Valid() && j <= k < |r.steps| && SameProcess(r, j, k) && !r.At(j).memory.phase.NoProcess?
    ensures !r.At(k).memory.phase.NoProcess? && !r.steps[k].event.ProcessBegins? && !r.steps[k].event.Owner?
    decreases k
  {
    assert r.LegalAt(k);
    if j < k {
      BeginsOnlyAfterTheEnd(r, j, k - 1);
      assert r.LegalAt(k - 1);
    }
  }

  /** Between two main pushes of one process a race is counted. */
  lemma FurtherPushCostsARace(r: Run, j: nat, k: nat)
    requires r.Valid() && j < k < |r.steps| && SameProcess(r, j, k)
    requires r.steps[j].event.PushMain? && r.steps[k].event.PushMain?
    ensures exists l | j < l < k :: IsRace(r, l)
  {
    assert r.LegalAt(k);
    if forall l | j < l < k :: !IsRace(r, l) {
      LostPushStaysUncounted(r, j, k);
    }
  }

  function Pushes(r: Run, i: nat, j: nat): nat
    requires i <= j <= |r.steps|
    decreases j
  {
    if i == j then 0 else Pushes(r, i, j - 1) + (if r.steps[j - 1].event.PushMain? then 1 else 0)
  }

  lemma {:induction false} PushesFrom(r: Run, i: nat, j: nat)
    requires i < j <= |r.steps| && !r.steps[i].event.PushMain?
    ensures Pushes(r, i, j) == Pushes(r, i + 1, j)
    decreases j
  {
    if i + 1 < j { PushesFrom(r, i, j - 1); }
  }

  /** The races counted so far, none if there is no publication. */
  function RacesNow(w: World): int {
    if w.local.publication.Some? then w.local.publication.value.memo.races else 0
  }

  lemma {:induction false} PushesAndRaces(r: Run, i: nat, j: nat)
    requires r.Valid() && i <= j <= |r.steps| && Uninterrupted(r, i, j)
    ensures Pushes(r, i, j) + RacesNow(r.At(i)) <= 3
    ensures var w := r.At(j);
            || w.memory.phase.Closed? || w.memory.phase.NoProcess?
            || Pushes(r, i, j) + RacesNow(r.At(i)) <= RacesNow(w) + (if w.memory.tipBeforePush.Some? then 1 else 0)
    decreases j
  {
    RunKeepsInvariant(r, i);
    if i < j {
      PushesAndRaces(r, i, j - 1);
      assert r.LegalAt(j - 1);
    }
  }

  /** One invocation pushes main at most three times, and once less for each race counted before it. */
  lemma InvocationPushesAtMostThrice(r: Run, i: nat, j: nat)
    requires r.Valid() && i <= j <= |r.steps| && Uninterrupted(r, i, j)
    ensures Pushes(r, i, j) <= 3 - RacesNow(r.At(i))
  {
    PushesAndRaces(r, i, j);
  }

  /**
   A push that is not the recorded conflict branch is a recovery push: three races were
   counted since the publication was created at step `c`, and the pushed HEAD is not known
   to be published.
   */
  lemma RecoveryOnlyAfterThreeRaces(r: Run, c: nat, k: nat)
    requires r.Valid() && c < k < |r.steps| && r.steps[c].event.CreateRefs? && Kept(r, c + 1, k)
    requires r.steps[k].event.PushBranch?
    requires MemoAt(r, k).preservation != PushPending(r.steps[k].event.branch)
    ensures Races(r, c + 1, k) == 3 && RecoveryBranch(r.thread, r.steps[k].event.branch)
    ensures !Ancestor(r.At(k).graph, r.steps[k].event.commit, r.At(k).local.tracking)
  {
    RacesAreCounted(r, c + 1, k);
    assert r.LegalAt(c) && r.LegalAt(k);
  }

  /**
   Local state is given up only when the work is safe: HEAD and local main are on a commit
   that remote main contains, or the original commit was seen on its conflict branch, or
   HEAD's commit was pushed to a recovery branch.
   */
  lemma RefsDeletedOnlyWhenSafe(r: Run, k: nat)
    requires r.Valid() && k < |r.steps| && r.steps[k].event.DeleteRefs?
    ensures r.At(k).local.publication.Some?
    ensures || Contained(r.At(k), HeadCommit(r.At(k).local))
            || (MemoAt(r, k).preservation.Proven? && exists j | 0 <= j < k ::
                  Witness(r, j, MemoAt(r, k).preservation.branch, Original(r, k)))
            || (MemoAt(r, k).races == 3 && exists j, b | 0 <= j < k ::
                  RecoveryBranch(r.thread, b) && Witness(r, j, b, HeadCommit(r.At(k).local)))
  {
    var w := r.At(k);
    assert r.LegalAt(k);
    if w.memory.seen.Some? {
      SeenHasEvidence(r, k);
      var (branch, c) := w.memory.seen.value;
      var j :| 0 <= j < k && Witness(r, j, branch, c);
      assert w.local.publication.value.memo.preservation == Proven(branch) && c == Original(r, k)
             ==> Witness(r, j, MemoAt(r, k).preservation.branch, Original(r, k));
      assert c == HeadCommit(w.local) ==> Witness(r, j, branch, HeadCommit(w.local));
    }
  }

  // ----- Local main -----

  /** Neither a rebase nor an amend can carry local main along. */
  predicate OffMain(l: Local) {
    OnBranch(l).Detached?
  }

  /** The HEAD that a rebase, its continuation or an amend will leave moved. */
  function OnBranch(l: Local): Head {
    if l.rebase.Stopped? then l.rebase.from else l.head
  }

  /** Local main stays, or moves by compare-and-swap from the original commit to one that remote main contains. */
  predicate ByCas(e: Entry) {
    e.post.local.main != e.pre.local.main ==>
      && e.event == UpdateMain(e.post.local.main)
      && e.pre.local.publication.Some? && e.pre.local.main == e.pre.local.publication.value.original
      && Contained(e.pre, e.post.local.main)
  }

  /** Nothing but one process and the other writers acts from step `i` to step `j`. */
  predicate Uninterrupted(r: Run, i: nat, j: nat)
    requires i <= j <= |r.steps|
  {
    forall k | i <= k < j :: !r.steps[k].event.Owner? && !r.steps[k].event.ProcessBegins?
  }

  lemma {:induction false} StaysOffMain(r: Run, i: nat, j: nat)
    requires r.Valid() && i <= j <= |r.steps| && Uninterrupted(r, i, j)
    requires OffMain(r.At(i).local)
    ensures OffMain(r.At(j).local) || r.At(j).memory.phase.Closed? || r.At(j).memory.phase.NoProcess?
    decreases j
  {
    if i < j {
      StaysOffMain(r, i, j - 1);
      assert r.LegalAt(j - 1);
    }
  }

  /**
   An invocation that finds HEAD off main moves local main only by compare-and-swap from the
   original commit to a commit that remote main contains, to its very end and through its death.
   */
  lemma InvocationMovesMainByCas(r: Run, i: nat, j: nat)
    requires r.Valid() && i <= j <= |r.steps| && Uninterrupted(r, i, j)
    requires OffMain(r.At(i).local)
    ensures forall k | i <= k < j :: ByCas(r.steps[k])
  {
    forall k | i <= k < j
      ensures ByCas(r.steps[k])
    {
      StaysOffMain(r, i, k);
      assert r.LegalAt(k);
    }
  }

  function Commits(r: Run, i: nat, j: nat): nat
    requires i <= j <= |r.steps|
    decreases j
  {
    if i == j then 0 else Commits(r, i, j - 1) + (if r.steps[j - 1].event.CommitOnMain? then 1 else 0)
  }

  lemma {:induction false} CommitsFrom(r: Run, i: nat, j: nat)
    requires i < j <= |r.steps| && !r.steps[i].event.CommitOnMain?
    ensures Commits(r, i, j) == Commits(r, i + 1, j)
    decreases j
  {
    if i + 1 < j { CommitsFrom(r, i, j - 1); }
  }

  /** Ready to start a publication: HEAD on main, nothing under way. */
  predicate Startable(l: Local) {
    l.publication.None? && l.head.Attached? && l.rebase.NoRebase?
  }

  lemma {:induction false} FreshStages(r: Run, i: nat, j: nat)
    requires r.Valid() && i <= j <= |r.steps| && Uninterrupted(r, i, j)
    requires Startable(r.At(i).local) && r.At(i).memory.phase.Free?
    ensures var w := r.At(j);
            || (w.memory.phase.Free? && Startable(w.local) && Commits(r, i, j) == 0)
            || (w.memory.phase.Committed? && w.local.rebase.NoRebase? && Commits(r, i, j) == 1)
            || ((OffMain(w.local) || w.memory.phase.Closed? || w.memory.phase.NoProcess?) && Commits(r, i, j) <= 1)
    decreases j
  {
    if i < j {
      FreshStages(r, i, j - 1);
      assert r.LegalAt(j - 1);
    }
  }

  /** A fresh publication moves local main once more, by its one commit, before HEAD leaves main. */
  lemma FreshMovesMainOnce(r: Run, i: nat, j: nat)
    requires r.Valid() && i <= j <= |r.steps| && Uninterrupted(r, i, j)
    requires Startable(r.At(i).local) && r.At(i).memory.phase.Free?
    ensures forall k | i <= k < j :: ByCas(r.steps[k]) || r.steps[k].event.CommitOnMain?
    ensures Commits(r, i, j) <= 1
  {
    FreshStages(r, i, j);
    forall k | i <= k < j
      ensures ByCas(r.steps[k]) || r.steps[k].event.CommitOnMain?
    {
      FreshStages(r, i, k);
      assert r.LegalAt(k);
    }
  }

  /** A rebase or amend, allowed in `w`, may leave local main on a commit that remote main does not contain. */
  ghost predicate MayStrandMain(thread: string, w: World) {
    exists post :: Legal(thread, Entry(w, HeadMoves, post))
                   && post.local.main != w.local.main && !Contained(post, post.local.main)
  }

  /**
   With HEAD off main the compare-and-swap is all there is; with HEAD on main, and exactly
   then, the next rebase, continuation or amend can take local main to an unpublished commit.
   */
  lemma HeadMoveMovesMainExactly(thread: string, w: World)
    requires Invariant(w) && Promise(thread, w, HeadMoves)
    ensures MayStrandMain(thread, w) <==> OnBranch(w.local).Attached?
  {
    if OnBranch(w.local).Attached? {
      var n := |w.graph|;
      var post := w.(graph := w.graph + [{}], local := w.local.(main := n, head := Attached, rebase := NoRebase));
      assert WellFormed(post.graph);
      assert Legal(thread, Entry(w, HeadMoves, post));
      if Contained(post, n) { AncestorOlder(post.graph, n, w.remote.main); }
    }
  }

  /** The states from which an invocation leaves local main alone: it preserves, or refuses at once. */
  predicate KeepsMain(l: Local, preserve: bool) {
    if l.publication.Some? then
      var memo := l.publication.value.memo;
      preserve || Active(memo.preservation) || (l.rebase.NoRebase? && memo.conflicts != [])
    else
      preserve || !Startable(l)
  }

  /** From every other state with a publication it may strand local main exactly if HEAD is on main. */
  lemma OtherResumesMoveMainExactly(thread: string, w: World, preserve: bool)
    requires Invariant(w) && w.memory == FRESH && w.local.publication.Some? && !KeepsMain(w.local, preserve)
    ensures MayStrandMain(thread, w) <==> !OffMain(w.local)
  {
    HeadMoveMovesMainExactly(thread, w);
  }

  /** The worlds of an interrupted start: commit 0 is published, 1 local, 2 another writer's. */
  function Interrupted(i: nat): World
    requires i <= 8
  {
    var l := Local(0, Attached, NoRebase, 0, None);
    var active := l.(main := 1, publication := Some(Publication(1, Memo(0, NotStarted, [], []))));
    var committed := FRESH.(phase := Committed);
    if i == 0 then World([{}], l, Remote(0, map[]), BLANK)
    else if i == 1 then World([{}], l, Remote(0, map[]), FRESH)
    else if i == 2 then World([{}, {0}], l.(main := 1), Remote(0, map[]), committed)
    else if i == 3 then World([{}, {0}], active, Remote(0, map[]), committed)
    else if i == 4 then World([{}, {0}], active, Remote(0, map[]), BLANK)
    else if i == 5 then World([{}, {0}, {0}], active, Remote(2, map[]), BLANK)
    else if i == 6 then World([{}, {0}, {0}], active, Remote(2, map[]), FRESH)
    else if i == 7 then World([{}, {0}, {0}], active.(tracking := 2), Remote(2, map[]), FRESH)
    else World([{}, {0}, {0}, {2}], active.(main := 3, tracking := 2), Remote(2, map[]), FRESH)
  }

  function InterruptedRun(thread: string): Run {
    Run(thread, Interrupted(0),
        [Entry(Interrupted(0), ProcessBegins, Interrupted(1)),
         Entry(Interrupted(1), CommitOnMain, Interrupted(2)),
         Entry(Interrupted(2), CreateRefs, Interrupted(3)),
         Entry(Interrupted(3), ProcessEnds, Interrupted(4)),
         Entry(Interrupted(4), Others, Interrupted(5)),
         Entry(Interrupted(5), ProcessBegins, Interrupted(6)),
         Entry(Interrupted(6), FetchMain, Interrupted(7)),
         Entry(Interrupted(7), HeadMoves, Interrupted(8))])
  }

  lemma InterruptedBegins(thread: string)
    ensures forall k | 0 <= k < 3 :: InterruptedRun(thread).LegalAt(k)
  {
    var r := InterruptedRun(thread);
    assert r.LegalAt(0) && r.LegalAt(1) && r.LegalAt(2);
  }

  lemma InterruptedDies(thread: string)
    ensures forall k | 3 <= k < 6 :: InterruptedRun(thread).LegalAt(k)
  {
    var r, g := InterruptedRun(thread), Interrupted(5).graph;
    assert 0 in g[2] && Ancestor(g, 0, 0);
    assert r.LegalAt(3) && r.LegalAt(4) && r.LegalAt(5);
  }

  lemma InterruptedResumes(thread: string)
    ensures forall k | 6 <= k < 8 :: InterruptedRun(thread).LegalAt(k)
  {
    var r := InterruptedRun(thread);
    assert r.LegalAt(6) && r.LegalAt(7);
  }

  /**
   It does happen. `start` dies after its refs are created and before HEAD is detached;
   the next run fetches what another writer pushed and rebases with HEAD on main. Local
   main is then neither the original commit nor in remote main.
   */
  lemma InterruptedStartMovesMain(thread: string)
    ensures var r := InterruptedRun(thread);
            && r.Valid()
            && (forall k | 0 <= k < |r.steps| :: !r.steps[k].event.Owner?)
            && Kept(r, 3, 8)
            && r.At(8).local.main != Original(r, 8)
            && !Contained(r.At(8), r.At(8).local.main)
  {
    var r := InterruptedRun(thread);
    InterruptedBegins(thread);
    InterruptedDies(thread);
    InterruptedResumes(thread);
    var g := Interrupted(8).graph;
    if Ancestor(g, 3, 2) { AncestorOlder(g, 3, 2); }
  }

  /**
   The worlds of an interrupted finish: commit 1 is pushed and HEAD is back on main, but the
   refs are still there; then another writer pushes commit 2 on top.
   */
  function Unfinished(i: nat): World
    requires i <= 11
  {
    var l := Local(0, Attached, NoRebase, 0, None);
    var active := l.(main := 1, publication := Some(Publication(1, Memo(0, NotStarted, [], []))));
    var off := active.(head := Detached(1));
    var committed, closed := FRESH.(phase := Committed), FRESH.(phase := Closed);
    if i == 0 then World([{}], l, Remote(0, map[]), BLANK)
    else if i == 1 then World([{}], l, Remote(0, map[]), FRESH)
    else if i == 2 then World([{}, {0}], l.(main := 1), Remote(0, map[]), committed)
    else if i == 3 then World([{}, {0}], active, Remote(0, map[]), committed)
    else if i == 4 then World([{}, {0}], off, Remote(0, map[]), FRESH)
    else if i == 5 then World([{}, {0}], off, Remote(1, map[]), closed)
    else if i == 6 then World([{}, {0}], active, Remote(1, map[]), closed)
    else if i == 7 then World([{}, {0}], active, Remote(1, map[]), BLANK)
    else if i == 8 then World([{}, {0}, {1}], active, Remote(2, map[]), BLANK)
    else if i == 9 then World([{}, {0}, {1}], active, Remote(2, map[]), FRESH)
    else if i == 10 then World([{}, {0}, {1}], active.(tracking := 2), Remote(2, map[]), FRESH)
    else World([{}, {0}, {1}], active.(main := 2, tracking := 2), Remote(2, map[]), FRESH)
  }

  function UnfinishedRun(thread: string): Run {
    Run(thread, Unfinished(0),
        [Entry(Unfinished(0), ProcessBegins, Unfinished(1)),
         Entry(Unfinished(1), CommitOnMain, Unfinished(2)),
         Entry(Unfinished(2), CreateRefs, Unfinished(3)),
         Entry(Unfinished(3), SwitchDetach(1), Unfinished(4)),
         Entry(Unfinished(4), PushMain(1, true), Unfinished(5)),
         Entry(Unfinished(5), SwitchMain, Unfinished(6)),
         Entry(Unfinished(6), ProcessEnds, Unfinished(7)),
         Entry(Unfinished(7), Others, Unfinished(8)),
         Entry(Unfinished(8), ProcessBegins, Unfinished(9)),
         Entry(Unfinished(9), FetchMain, Unfinished(10)),
         Entry(Unfinished(10), HeadMoves, Unfinished(11))])
  }

  lemma UnfinishedBegins(thread: string)
    ensures forall k | 0 <= k < 4 :: UnfinishedRun(thread).LegalAt(k)
  {
    var r := UnfinishedRun(thread);
    assert r.LegalAt(0) && r.LegalAt(1) && r.LegalAt(2) && r.LegalAt(3);
  }

  lemma UnfinishedPublishes(thread: string)
    ensures UnfinishedRun(thread).LegalAt(4)
  {
    var g := Unfinished(4).graph;
    assert 0 in g[1] && Ancestor(g, 0, 0);
    assert Ancestor(g, 0, 1);
    if Ancestor(g, 1, 0) { AncestorOlder(g, 1, 0); }
  }

  lemma UnfinishedDies(thread: string)
    ensures UnfinishedRun(thread).LegalAt(5) && UnfinishedRun(thread).LegalAt(6)
  {}

  lemma UnfinishedOvertaken(thread: string)
    ensures UnfinishedRun(thread).LegalAt(7)
  {
    var g := Unfinished(8).graph;
    assert 1 in g[2] && Ancestor(g, 1, 1);
    assert Ancestor(g, 1, 2);
  }

  lemma UnfinishedResumes(thread: string)
    ensures UnfinishedRun(thread).LegalAt(8) && UnfinishedRun(thread).LegalAt(9)
  {}

  lemma UnfinishedRebases(thread: string)
    ensures UnfinishedRun(thread).LegalAt(10)
  {}

  lemma UnfinishedIsLegal(thread: string)
    ensures UnfinishedRun(thread).Valid()
  {
    UnfinishedBegins(thread);
    UnfinishedPublishes(thread);
    UnfinishedDies(thread);
    UnfinishedOvertaken(thread);
    UnfinishedResumes(thread);
    UnfinishedRebases(thread);
  }

  /**
   It happens at the other end, too. A published run dies between putting HEAD back on main
   and deleting the refs; the next run's rebase, not a compare-and-swap, moves local main.
   */
  lemma InterruptedFinishMovesMain(thread: string)
    ensures var r := UnfinishedRun(thread);
            && r.Valid()
            && (forall k | 0 <= k < |r.steps| :: !r.steps[k].event.Owner?)
            && Kept(r, 3, 11)
            && !ByCas(r.steps[10])
  {
    UnfinishedIsLegal(thread);
  }
}

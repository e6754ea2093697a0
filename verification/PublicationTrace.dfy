/**
 The commands the publisher gives, in order, without the steps of others: which sequences of
 them each part of the protocol may give. Every sequence may stop anywhere, for a command may
 fail and the process may die.
 */
module PublicationTrace {
  import opened Wrappers
  import opened CommitGraph
  import opened StateCodec
  import opened PublicationModel

  predicate IsCommand(event: Event) {
    !event.Others? && !event.Owner? && !event.ProcessBegins? && !event.ProcessEnds?
  }

  /** The commands among the steps of a run. */
  function Commands(steps: seq<Entry>): seq<Event> {
    if |steps| == 0 then []
    else
      var earlier, event := Commands(steps[..|steps| - 1]), steps[|steps| - 1].event;
      if IsCommand(event) then earlier + [event] else earlier
  }

  lemma CommandsSnoc(steps: seq<Entry>, e: Entry)
    ensures Commands(steps + [e]) == Commands(steps) + (if IsCommand(e.event) then [e.event] else [])
  {
    assert (steps + [e])[..|steps|] == steps;
  }

  // ----- The steps of a fresh publication -----

  /** The steps of a fresh publication, in their order; 0 is any other event. */
  function Milestone(event: Event): nat {
    match event
    case CommitOnMain => 1
    case CreateRefs => 2
    case SwitchDetach(_) => 3
    case FetchMain => 4
    case HeadMoves => 5
    case _ => 0
  }

  const FETCHED := 4
  const REBASED := 5

  /** How many of the milestones the steps pass, one after the other from the first. */
  function Stage(steps: seq<Entry>): nat {
    if |steps| == 0 then 0
    else
      var stage := Stage(steps[..|steps| - 1]);
      if Milestone(steps[|steps| - 1].event) == stage + 1 then stage + 1 else stage
  }

  lemma {:induction false} StageGrows(steps: seq<Entry>, k: nat)
    requires k <= |steps|
    ensures Stage(steps[..k]) <= Stage(steps)
    decreases |steps|
  {
    if k == |steps| {
      assert steps[..k] == steps;
    } else {
      var front := steps[..|steps| - 1];
      StageGrows(front, k);
      assert front[..k] == steps[..k];
    }
  }

  /** A milestone some time after the one before it is passed. */
  lemma StageReaches(steps: seq<Entry>, a: nat, k: nat, milestone: nat)
    requires a <= k < |steps| && Milestone(steps[k].event) == milestone > 0
    requires Stage(steps[..a]) >= milestone - 1
    ensures Stage(steps[..k + 1]) >= milestone
  {
    var before, after := steps[..k], steps[..k + 1];
    assert before[..a] == steps[..a] && after[..k] == before;
    StageGrows(before, a);
  }

  // ----- Local main -----

  predicate MovesMain(event: Event) {
    event.CommitOnMain? || event.HeadMoves? || event.UpdateMain?
  }

  /** No command among them can move local main. */
  predicate Quiet(t: seq<Event>) {
    forall i | 0 <= i < |t| :: !MovesMain(t[i])
  }

  /** Every command of the later steps is among the later commands. */
  lemma {:induction false} CommandsHold(steps: seq<Entry>, a: nat, k: nat)
    requires a <= k < |steps| && IsCommand(steps[k].event)
    ensures Commands(steps[..a]) <= Commands(steps)
    ensures exists i | |Commands(steps[..a])| <= i < |Commands(steps)| :: Commands(steps)[i] == steps[k].event
    decreases |steps|
  {
    var front := steps[..|steps| - 1];
    CommandsGrow(front, a);
    assert front[..a] == steps[..a];
    if k == |front| {
      assert Commands(steps)[|Commands(front)|] == steps[k].event;
    } else {
      CommandsHold(front, a, k);
      var i :| |Commands(steps[..a])| <= i < |Commands(front)| && Commands(front)[i] == front[k].event;
      assert Commands(steps)[i] == steps[k].event;
    }
  }

  lemma {:induction false} CommandsGrow(steps: seq<Entry>, a: nat)
    requires a <= |steps|
    ensures Commands(steps[..a]) <= Commands(steps)
    decreases |steps|
  {
    if a == |steps| {
      assert steps[..a] == steps;
    } else {
      var front := steps[..|steps| - 1];
      CommandsGrow(front, a);
      assert front[..a] == steps[..a];
    }
  }

  /** If no later command of an invocation can move local main, nothing has. */
  lemma QuietKeepsMain(r: Run, a: nat, k: nat)
    requires r.Valid() && a <= k < |r.steps| && Uninterrupted(r, a, |r.steps|)
    requires Commands(r.steps[..a]) <= Commands(r.steps)
    requires Quiet(Commands(r.steps)[|Commands(r.steps[..a])|..])
    ensures r.steps[k].post.local.main == r.steps[k].pre.local.main
  {
    var earlier, later := Commands(r.steps[..a]), Commands(r.steps);
    assert r.LegalAt(k);
    if IsCommand(r.steps[k].event) {
      CommandsHold(r.steps, a, k);
      var i :| |earlier| <= i < |later| && later[i] == r.steps[k].event;
      assert later[|earlier|..][i - |earlier|] == r.steps[k].event;
    }
  }

  // ----- Preserving a conflict -----

  predicate CleanupTrace(t: seq<Event>) {
    t == [] || t == [DeleteRefs]
  }

  /** Proof is recorded, and only then may the refs go. */
  predicate ProofTrace(p: Publication, branch: string, t: seq<Event>) {
    t == [] || (t[0] == UpdateRefs(p.memo.(preservation := Proven(branch))) && CleanupTrace(t[1..]))
  }

  /** The original commit is pushed to the branch, and proof is recorded only if the push is accepted. */
  predicate PushTrace(p: Publication, branch: string, t: seq<Event>) {
    t == [] || (&& t[0].PushBranch? && t[0].branch == branch && t[0].commit == p.original
                && if t[0].accepted then ProofTrace(p, branch, t[1..]) else t[1..] == [])
  }

  /** A branch is recorded as pending before anything is pushed to it. */
  predicate AllocateTrace(thread: string, p: Publication, t: seq<Event>) {
    t == [] || (&& t[0].UpdateRefs? && t[0].memo.preservation.PushPending?
                && var branch := t[0].memo.preservation.branch;
                   && ValidPreservedBranch(thread, branch)
                   && t[0].memo == p.memo.(preservation := PushPending(branch))
                   && PushTrace(p.(memo := t[0].memo), branch, t[1..]))
  }

  /** The pending branch is looked at: absent, it is pushed; at the original commit, it is proof; else nothing. */
  predicate RetryTrace(p: Publication, branch: string, t: seq<Event>) {
    && |t| > 0 && t[0].Observe? && t[0].branch == branch
    && if t[0].found.None? then PushTrace(p, branch, t[1..])
       else if t[0].found == Some(p.original) then ProofTrace(p, branch, t[1..])
       else t[1..] == []
  }

  /** The proven branch is looked at, and the refs go only if it is still at the original commit. */
  predicate ProvenTrace(p: Publication, branch: string, t: seq<Event>) {
    && |t| > 0 && t[0].Observe? && t[0].branch == branch
    && if t[0].found == Some(p.original) then CleanupTrace(t[1..]) else t[1..] == []
  }

  /** The rebase is aborted and HEAD put back on main before anything else. */
  predicate AbortTrace(thread: string, p: Publication, t: seq<Event>) {
    t == [] || (&& t[0] == RebaseAborts
                && (|t| == 1 || (t[1] == SwitchMain && AllocateTrace(thread, p, t[2..]))))
  }

  /** `verify_post_abort_state`: the recorded baseline covers the conflicts and nothing else. */
  predicate BaselineMatches(m: Memo) {
    && m.conflicts != []
    && (forall i | 0 <= i < |m.conflicts| :: exists j | 0 <= j < |m.baseline| :: m.baseline[j].0 == m.conflicts[i])
    && (forall j | 0 <= j < |m.baseline| :: m.baseline[j].0 == "TODO.md" || m.baseline[j].0 in m.conflicts)
  }

  /** HEAD and local main are both on the original commit and no rebase is under way. */
  predicate OnOriginal(l: Local) {
    && l.publication.Some? && l.head.Attached? && l.rebase.NoRebase?
    && l.main == l.publication.value.original
  }

  /** The cases of a preserving resume, by the recorded preservation and whether a rebase is stopped. */
  predicate ResumeTrace(thread: string, l: Local, t: seq<Event>)
    requires l.publication.Some?
  {
    var p := l.publication.value;
    match p.memo.preservation
    case PushPending(branch) => if l.rebase.Stopped? then t == [] else RetryTrace(p, branch, t)
    case Proven(branch) => if l.rebase.Stopped? then t == [] else ProvenTrace(p, branch, t)
    case _ =>
      if l.rebase.Stopped? then AbortTrace(thread, p, t) && (p.memo.conflicts == [] ==> t == [])
      else t == [] || (OnOriginal(l) && BaselineMatches(p.memo) && AllocateTrace(thread, p, t))
  }

  lemma PushesAreQuiet(p: Publication, branch: string, t: seq<Event>)
    ensures ProofTrace(p, branch, t) || PushTrace(p, branch, t) ==> Quiet(t)
  {}

  lemma AllocationIsQuiet(thread: string, p: Publication, t: seq<Event>)
    requires AllocateTrace(thread, p, t)
    ensures Quiet(t)
  {
    if t != [] {
      var branch, rest := t[0].memo.preservation.branch, t[1..];
      PushesAreQuiet(p.(memo := t[0].memo), branch, rest);
      assert t == [t[0]] + rest;
    }
  }

  /** Whatever a preserving resume does, it leaves local main alone. */
  lemma PreservingIsQuiet(thread: string, l: Local, t: seq<Event>)
    requires l.publication.Some? && ResumeTrace(thread, l, t)
    ensures Quiet(t)
  {
    if t != [] {
      var p, rest := l.publication.value, t[1..];
      assert t == [t[0]] + rest;
      match p.memo.preservation
      case PushPending(branch) => PushesAreQuiet(p, branch, rest);
      case Proven(branch) =>
      case _ =>
        if !l.rebase.Stopped? {
          AllocationIsQuiet(thread, p, t);
        } else if |t| > 1 {
          AllocationIsQuiet(thread, p, t[2..]);
          assert t == [t[0], t[1]] + t[2..];
        }
    }
  }

  // ----- Publishing -----

  /** Local main moves only from the original commit, and only then is HEAD put back on it. */
  predicate AttachTrace(l: Local, commit: Commit, t: seq<Event>)
    requires l.publication.Some?
  {
    || t == []
    || (l.main == commit && t == [SwitchMain])
    || (l.main != commit && l.main == l.publication.value.original
        && (t == [UpdateMain(commit)] || t == [UpdateMain(commit), SwitchMain]))
  }

  /** The head goes to a recovery branch, and the refs go only if the push is accepted. */
  predicate RecoveryTrace(thread: string, head: Commit, t: seq<Event>) {
    t == [] || (&& t[0].PushBranch? && RecoveryBranch(thread, t[0].branch) && t[0].commit == head
                && if t[0].accepted then CleanupTrace(t[1..]) else t[1..] == [])
  }

  // ----- What is written can be stored -----

  /** What `update_state` writes. */
  function Updated(m: Memo, races: int, conflicts: seq<string>, baseline: Baseline): Memo {
    Memo(races, m.preservation, Text.SortUnique(conflicts, Self), Text.SortUnique(baseline, PathOf))
  }

  predicate StorableConflict(path: string) {
    ManagedPath(path) && path != "TODO.md" && Text.Free(NUL, path)
  }

  predicate StorableDigest(entry: (string, string)) {
    entry.0 != "" && Text.Free(NUL, entry.0) && HexDigest(entry.1)
  }

  lemma HexDigestIsNulFree(digest: string)
    requires HexDigest(digest)
    ensures Text.Free(NUL, digest)
  {}

  /** What `create_state` writes is read back. */
  lemma CreatedIsStorable()
    ensures Storable(Memo(0, NotStarted, [], []))
  {}

  /**
   What `update_state` writes is read back: any number of managed paths within the limit, in
   any order and with repetitions, give a storable state from a storable one.
   */
  lemma UpdatedIsStorable(m: Memo, races: int, conflicts: seq<string>, baseline: Baseline)
    requires Storable(m) && 0 <= races <= 3 && |conflicts| <= MAX_PATHS && |baseline| <= MAX_PATHS
    requires forall i | 0 <= i < |conflicts| :: StorableConflict(conflicts[i])
    requires forall i | 0 <= i < |baseline| :: StorableDigest(baseline[i])
    ensures Storable(Updated(m, races, conflicts, baseline))
  {
    var c, b := Text.SortUnique(conflicts, Self), Text.SortUnique(baseline, PathOf);
    Text.SortUniqueAscends(conflicts, Self);
    Text.SortUniqueAscends(baseline, PathOf);
    Text.SortUniqueSize(conflicts, Self);
    Text.SortUniqueSize(baseline, PathOf);
    forall i | 0 <= i < |c|
      ensures StorableConflict(c[i])
    {
      assert c[i] in conflicts;
    }
    forall i | 0 <= i < |b|
      ensures StorableDigest(b[i]) && Text.Free(NUL, b[i].1)
    {
      assert b[i] in baseline;
      HexDigestIsNulFree(b[i].1);
    }
  }

  /** What `update_preservation` writes is read back. */
  lemma PreservedIsStorable(thread: string, m: Memo, p: Preservation)
    requires Storable(m) && Active(p) && ValidPreservedBranch(thread, p.branch) && Text.Free(NUL, thread)
    ensures Storable(m.(preservation := p))
  {
    var prefix := "conflicts/" + thread + "/";
    var branch := p.branch;
    assert branch == prefix + branch[|prefix|..];
    forall i | 0 <= i < |branch|
      ensures branch[i] != NUL
    {
      if i < |prefix| {
        assert branch[i] == prefix[i];
      } else {
        assert branch[i] == branch[|prefix|..][i - |prefix|];
      }
    }
  }
}

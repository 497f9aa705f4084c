/** Every commit of a chain was put there by a call of the run that was allowed to. */
module MlsGroupProvenance {
  import opened Prelude
  import opened MlsGroupModel
  import opened MlsGroupInvariant
  import opened MlsGroupSafety
  import opened MlsGroupWindow
  import opened MlsGroupJudgement

  /** The group before call `k` of a run. */
  function Before(protocol: Protocol, g: Group, calls: seq<Call>, k: nat): Group
    requires k <= |calls|
  {
    Run(protocol, g, calls[..k])
  }

  /**
   * Call `k` built this change under this frontier, in this branch: the group did not wait, and
   * the policy allowed the change from the frontier bound to its latest, which is the one.
   */
  ghost predicate BuiltBy(protocol: Protocol, g: Group, calls: seq<Call>, k: nat, branch: Branch, change: Change,
                          frontier: Frontier)
    requires k < |calls|
  {
    var before := Before(protocol, g, calls, k);
    && calls[k].BuildCall? && calls[k].policy.frontier == frontier
    && before.state.At() == branch && !AnyHeld(calls[k].policy, before.witnesses)
    && protocol.build(branch, calls[k].draft).Some? && protocol.build(branch, calls[k].draft).value.change == change
    && calls[k].policy.allows(change, before.bound, frontier)
  }

  /**
   * Call `k` put this commit there. Another member's: the policy of that call admitted everyone
   * it adds, allowed it from the frontier bound before it, and withheld nothing it binds. An own
   * one: it was built by an earlier call in the very branch it was confirmed in.
   */
  ghost predicate PutBy(protocol: Protocol, g: Group, calls: seq<Call>, k: nat, epoch: nat, entry: AppliedEpoch)
    requires k < |calls|
  {
    && TookBy(protocol, g, calls, k) == Some(epoch)
    && match calls[k]
       case ApplyCall(policy, record) =>
         && record.id == entry.commitId
         && Allowed(policy, entry.change, entry.baseline, entry.frontier)
         && !policy.withheld(entry.change.committer, entry.frontier)
       case ConfirmCall(commitId) =>
         && commitId == entry.commitId && Before(protocol, g, calls, k).bound == entry.baseline
         && exists b :: 0 <= b < k && BuiltBy(protocol, g, calls, b, Before(protocol, g, calls, k).state.At(),
                                              entry.change, entry.frontier)
       case _ => false
  }

  // ----- one call ----------------------------------------------------------------------------

  /** The same commit, whether or not the state before it is still kept. */
  ghost predicate SameCommit(one: (nat, AppliedEpoch), other: (nat, AppliedEpoch)) {
    one.0 == other.0 && one.1.(before := None) == other.1.(before := None)
  }

  /** All commits but the last, and the last one too if none was taken, were there before. */
  ghost predicate KeepsCommits(g: Group, g': Group, took: Option<nat>) {
    && |g'.applied| <= |g.applied| + (if took.Some? then 1 else 0) && (took.Some? ==> g'.applied != [])
    && forall i :: 0 <= i < |g'.applied| - (if took.Some? then 1 else 0) ==> SameCommit(g'.applied[i], g.applied[i])
  }

  lemma {:induction false} TakenKeepsCommits(g: Group, k: nat, taken: AppliedEpoch, g': Group)
    requires Contiguously(g) && k <= |g.applied| && g'.applied == TakenAt(g, k, taken)
    ensures KeepsCommits(g, g', Some(Base(g) + k))
    ensures |g'.applied| == k + 1 && SameCommit(g'.applied[k], (Base(g) + k, taken))
  {
  }

  lemma {:induction false} FaresKeeps(protocol: Protocol, policy: Policy, g: Group, record: Record, judged: Judgement)
    requires !g.removed && Contested(g, record)
    requires judged.Held? ==> Inv(protocol, g.(witnesses := judged.witnesses))
    requires !Fares(protocol, policy, g, record, judged).0.removed
    ensures var (g', outcome) := Fares(protocol, policy, g, record, judged);
            var took := if outcome.Applied? || outcome.Replaced? then Some(record.epoch) else None;
            && KeepsCommits(g, g', took)
            && (took.Some? ==>
                  && judged.Accepted?
                  && SameCommit(g'.applied[|g'.applied| - 1],
                                (record.epoch, EntryAt(g, record, judged.change, judged.frontier))))
  {
    match judged
    case Held(known) => StepBackKeepsPrefix(protocol, policy, g.(witnesses := known));
    case Accepted(change, frontier, next) =>
      TakenKeepsCommits(g, record.epoch - Base(g), EntryAt(g, record, change, frontier),
                        Fares(protocol, policy, g, record, judged).0);
    case _ =>
  }

  lemma {:induction false} ApplyPuts(protocol: Protocol, policy: Policy, g: Group, record: Record)
    requires Inv(protocol, g) && !ApplyCommit(protocol, policy, g, record).0.removed
    ensures var g' := ApplyCommit(protocol, policy, g, record).0;
            var took := TookEpoch(protocol, g, ApplyCall(policy, record));
            && KeepsCommits(g, g', took)
            && (took.Some? ==>
                  var (epoch, entry) := g'.applied[|g'.applied| - 1];
                  && took == Some(epoch) && entry.commitId == record.id
                  && Allowed(policy, entry.change, entry.baseline, entry.frontier)
                  && !policy.withheld(entry.change.committer, entry.frontier))
  {
    if !Contested(g, record) {
      UncontestedChangesNothing(protocol, policy, g, record);
    } else {
      ContestedShape(protocol, policy, g, record);
      var judged := JudgedAt(protocol, policy, g, record);
      if judged.Held? {
        HeldKnown(protocol, policy, g, record);
      } else if judged.Accepted? {
        AcceptedIsAllowed(protocol, policy, g, record, judged.change, judged.frontier, judged.next);
      }
      FaresKeeps(protocol, policy, g, record, judged);
    }
  }

  lemma {:induction false} AcceptedIsAllowed(protocol: Protocol, policy: Policy, g: Group, record: Record,
                                             change: Change, frontier: Frontier, next: Branch)
    requires Inv(protocol, g) && Contested(g, record)
    requires JudgedAt(protocol, policy, g, record) == Accepted(change, frontier, next)
    ensures Allowed(policy, change, BaselineAt(g, record), frontier) && !policy.withheld(change.committer, frontier)
  {
    var c := protocol.readCommit(record.bytes).value;
    var processed := protocol.process(FromAt(g, record).At(), c);
    JudgedExactly(protocol, policy, g.witnesses, record, FromAt(g, record), BaselineAt(g, record), RivalAt(g, record),
                  c, processed.change, processed.settled);
  }

  lemma {:induction false} ConfirmShape(protocol: Protocol, g: Group, commitId: CommitId)
    returns (taken: AppliedEpoch)
    requires Inv(protocol, g) && !g.removed && Confirm(g, commitId).1.Applied?
    ensures g.pending.Some? && g.pending.value.before.At() == g.state.At()
    ensures taken == AppliedEpoch(commitId, Some(g.pending.value.before), g.bound, g.pending.value.frontier,
                                  g.pending.value.change)
    ensures Confirm(g, commitId).0.applied == TakenAt(g, |g.applied|, taken)
  {
    var pending := g.pending.value;
    taken := AppliedEpoch(commitId, Some(pending.before), g.bound, pending.frontier, pending.change);
    SameEpochIsSameBranch(g.state, pending.before);
    TakeShape(g, g.state.epoch, taken);
  }

  lemma {:induction false} ConfirmPuts(protocol: Protocol, g: Group, commitId: CommitId)
    requires Inv(protocol, g) && !g.removed && Confirm(g, commitId).1.Applied?
    ensures g.pending.Some? && g.pending.value.before.At() == g.state.At()
    ensures var g' := Confirm(g, commitId).0;
            && KeepsCommits(g, g', Some(g.state.epoch))
            && SameCommit(g'.applied[|g'.applied| - 1],
                          (g.state.epoch, AppliedEpoch(commitId, None, g.bound, g.pending.value.frontier,
                                                       g.pending.value.change)))
  {
    var taken := ConfirmShape(protocol, g, commitId);
    TakenKeepsCommits(g, |g.applied|, taken, Confirm(g, commitId).0);
  }

  // ----- over runs ---------------------------------------------------------------------------

  ghost predicate IsPut(protocol: Protocol, g: Group, calls: seq<Call>, entry: (nat, AppliedEpoch)) {
    exists k :: 0 <= k < |calls| && PutBy(protocol, g, calls, k, entry.0, entry.1)
  }

  ghost predicate IsBuilt(protocol: Protocol, g: Group, calls: seq<Call>, pending: PendingCommit) {
    exists b :: 0 <= b < |calls|
                && BuiltBy(protocol, g, calls, b, pending.before.At(), pending.change, pending.frontier)
  }

  /** Every commit of the chain was put there by a call, and the pending one was built by one. */
  ghost predicate AllPut(protocol: Protocol, g: Group, calls: seq<Call>, end: Group) {
    && (forall i :: 0 <= i < |end.applied| ==> IsPut(protocol, g, calls, end.applied[i]))
    && (end.pending.Some? ==> IsBuilt(protocol, g, calls, end.pending.value))
  }

  lemma {:induction false} BuiltByLonger(protocol: Protocol, g: Group, calls: seq<Call>, n: nat, k: nat, branch: Branch,
                                         change: Change, frontier: Frontier)
    requires k < n <= |calls|
    ensures BuiltBy(protocol, g, calls[..n], k, branch, change, frontier)
            == BuiltBy(protocol, g, calls, k, branch, change, frontier)
  {
    assert calls[..n][..k] == calls[..k];
  }

  lemma {:induction false} PutByLonger(protocol: Protocol, g: Group, calls: seq<Call>, n: nat, k: nat, epoch: nat,
                                       entry: AppliedEpoch)
    requires k < n <= |calls| && PutBy(protocol, g, calls[..n], k, epoch, entry)
    ensures PutBy(protocol, g, calls, k, epoch, entry)
  {
    assert calls[..n][..k] == calls[..k];
    if calls[k].ConfirmCall? {
      var branch := Before(protocol, g, calls, k).state.At();
      var b :| 0 <= b < k && BuiltBy(protocol, g, calls[..n], b, branch, entry.change, entry.frontier);
      BuiltByLonger(protocol, g, calls, n, b, branch, entry.change, entry.frontier);
    }
  }

  lemma {:induction false} PutByAlike(protocol: Protocol, g: Group, calls: seq<Call>, k: nat, one: (nat, AppliedEpoch),
                                      other: (nat, AppliedEpoch))
    requires k < |calls| && SameCommit(one, other) && PutBy(protocol, g, calls, k, one.0, one.1)
    ensures PutBy(protocol, g, calls, k, other.0, other.1)
  {
  }

  /** What was there before the last call was put there by the calls before it. */
  lemma {:induction false} OldPut(protocol: Protocol, g: Group, calls: seq<Call>, was: (nat, AppliedEpoch),
                                  entry: (nat, AppliedEpoch))
    requires calls != [] && IsPut(protocol, g, calls[..|calls| - 1], was) && SameCommit(entry, was)
    ensures IsPut(protocol, g, calls, entry)
  {
    var n := |calls| - 1;
    var k :| 0 <= k < n && PutBy(protocol, g, calls[..n], k, was.0, was.1);
    PutByLonger(protocol, g, calls, n, k, was.0, was.1);
    PutByAlike(protocol, g, calls, k, was, entry);
  }

  lemma {:induction false} OldBuilt(protocol: Protocol, g: Group, calls: seq<Call>, pending: PendingCommit)
    returns (b: nat)
    requires calls != [] && IsBuilt(protocol, g, calls[..|calls| - 1], pending)
    ensures b < |calls| - 1 && BuiltBy(protocol, g, calls, b, pending.before.At(), pending.change, pending.frontier)
  {
    var n := |calls| - 1;
    b :| 0 <= b < n && BuiltBy(protocol, g, calls[..n], b, pending.before.At(), pending.change, pending.frontier);
    BuiltByLonger(protocol, g, calls, n, b, pending.before.At(), pending.change, pending.frontier);
  }

  lemma {:induction false} ConfirmedPut(protocol: Protocol, g: Group, calls: seq<Call>, before: Group,
                                        entry: (nat, AppliedEpoch))
    requires calls != [] && calls[|calls| - 1].ConfirmCall?
    requires before == Run(protocol, g, calls[..|calls| - 1]) && before.pending.Some?
    requires Confirm(before, calls[|calls| - 1].commitId).1.Applied?
    requires before.pending.value.before.At() == before.state.At()
    requires IsBuilt(protocol, g, calls[..|calls| - 1], before.pending.value)
    requires SameCommit(entry, (before.state.epoch, AppliedEpoch(calls[|calls| - 1].commitId, None, before.bound,
                                                                 before.pending.value.frontier,
                                                                 before.pending.value.change)))
    ensures PutBy(protocol, g, calls, |calls| - 1, entry.0, entry.1)
  {
    var b := OldBuilt(protocol, g, calls, before.pending.value);
  }

  /** The commit the last call took, if it took one, was put there by it. */
  lemma {:induction false} NewPut(protocol: Protocol, g: Group, calls: seq<Call>, before: Group, end: Group)
    requires calls != [] && AllPut(protocol, g, calls[..|calls| - 1], before)
    requires before == Run(protocol, g, calls[..|calls| - 1]) && Inv(protocol, before) && !before.removed
    requires end == Step(protocol, before, calls[|calls| - 1]) && !end.removed
    ensures var took := TookEpoch(protocol, before, calls[|calls| - 1]);
            && KeepsCommits(before, end, took)
            && (took.Some? ==> PutBy(protocol, g, calls, |calls| - 1, end.applied[|end.applied| - 1].0,
                                     end.applied[|end.applied| - 1].1))
  {
    var n := |calls| - 1;
    match calls[n]
    case ApplyCall(policy, record) => AppliedPut(protocol, g, calls, before, end);
    case ConfirmCall(commitId) => ConfirmPut(protocol, g, calls, before, end);
    case _ =>
  }

  lemma {:induction false} ConfirmPut(protocol: Protocol, g: Group, calls: seq<Call>, before: Group, end: Group)
    requires calls != [] && calls[|calls| - 1].ConfirmCall?
    requires before == Run(protocol, g, calls[..|calls| - 1]) && Inv(protocol, before) && !before.removed
    requires before.pending.Some? ==> IsBuilt(protocol, g, calls[..|calls| - 1], before.pending.value)
    requires end == Confirm(before, calls[|calls| - 1].commitId).0
    ensures var took := TookEpoch(protocol, before, calls[|calls| - 1]);
            && KeepsCommits(before, end, took)
            && (took.Some? ==> PutBy(protocol, g, calls, |calls| - 1, end.applied[|end.applied| - 1].0,
                                     end.applied[|end.applied| - 1].1))
  {
    var commitId := calls[|calls| - 1].commitId;
    ConfirmAdoptsOnItsBranch(protocol, before, commitId);
    if Confirm(before, commitId).1.Applied? {
      ConfirmPuts(protocol, before, commitId);
      ConfirmedPut(protocol, g, calls, before, end.applied[|end.applied| - 1]);
    }
  }

  lemma {:induction false} AppliedPut(protocol: Protocol, g: Group, calls: seq<Call>, before: Group, end: Group)
    requires calls != [] && calls[|calls| - 1].ApplyCall?
    requires before == Run(protocol, g, calls[..|calls| - 1]) && Inv(protocol, before)
    requires end == Step(protocol, before, calls[|calls| - 1]) && !end.removed
    ensures var took := TookEpoch(protocol, before, calls[|calls| - 1]);
            && KeepsCommits(before, end, took)
            && (took.Some? ==> PutBy(protocol, g, calls, |calls| - 1, end.applied[|end.applied| - 1].0,
                                     end.applied[|end.applied| - 1].1))
  {
    ApplyPuts(protocol, calls[|calls| - 1].policy, before, calls[|calls| - 1].record);
  }

  /** The pending commit was built by the last call, or was pending before it. */
  lemma {:induction false} PendingPut(protocol: Protocol, g: Group, calls: seq<Call>, before: Group, end: Group)
    requires calls != [] && AllPut(protocol, g, calls[..|calls| - 1], before)
    requires before == Run(protocol, g, calls[..|calls| - 1])
    requires end == Step(protocol, before, calls[|calls| - 1])
    ensures end.pending.Some? ==> IsBuilt(protocol, g, calls, end.pending.value)
  {
    var n := |calls| - 1;
    if calls[n].ApplyCall? {
      ApplyKeepsPending(protocol, calls[n].policy, before, calls[n].record);
    }
    if end.pending.Some? {
      var pending := end.pending.value;
      if end.pending == before.pending {
        var b := OldBuilt(protocol, g, calls, pending);
      } else {
        WaitsExactly(calls[n].policy, before.witnesses);
        assert BuiltBy(protocol, g, calls, n, pending.before.At(), pending.change, pending.frontier);
      }
    }
  }

  lemma {:induction false} EntriesPut(protocol: Protocol, g: Group, calls: seq<Call>, before: Group, end: Group,
                                      took: Option<nat>)
    requires calls != [] && AllPut(protocol, g, calls[..|calls| - 1], before) && KeepsCommits(before, end, took)
    requires took.Some? ==> PutBy(protocol, g, calls, |calls| - 1, end.applied[|end.applied| - 1].0,
                                  end.applied[|end.applied| - 1].1)
    ensures forall i :: 0 <= i < |end.applied| ==> IsPut(protocol, g, calls, end.applied[i])
  {
    forall i | 0 <= i < |end.applied|
      ensures IsPut(protocol, g, calls, end.applied[i])
    {
      if i < |end.applied| - 1 || took.None? {
        OldPut(protocol, g, calls, before.applied[i], end.applied[i]);
      }
    }
  }

  lemma {:induction false} RunPuts(protocol: Protocol, g: Group, calls: seq<Call>)
    requires Sound(protocol, g.owner) && Inv(protocol, g) && g.applied == [] && g.pending == None
    requires !Run(protocol, g, calls).removed
    ensures AllPut(protocol, g, calls, Run(protocol, g, calls))
    decreases |calls|
  {
    if calls != [] {
      var n := |calls| - 1;
      var before := Run(protocol, g, calls[..n]);
      var end := Run(protocol, g, calls);
      BeforeLast(protocol, g, calls);
      RunPuts(protocol, g, calls[..n]);
      NewPut(protocol, g, calls, before, end);
      PendingPut(protocol, g, calls, before, end);
      EntriesPut(protocol, g, calls, before, end, TookEpoch(protocol, before, calls[n]));
    }
  }

  // ----- the frontiers of a chain ------------------------------------------------------------

  /** The chain and the frontier bound start from those the group was started with. */
  ghost predicate Rooted(g: Group, state: ClientState, bound: Frontier) {
    && (g.applied == [] ==> g.bound == bound && g.state.At() == state.At())
    && (g.applied != [] ==>
          && g.applied[0].1.baseline == bound
          && (g.applied[0].1.before.Some? ==> g.applied[0].1.before.value.At() == state.At()))
  }

  lemma {:induction false} TakenRooted(g: Group, k: nat, taken: AppliedEpoch, g': Group, state: ClientState,
                                       bound: Frontier)
    requires Contiguously(g) && k <= |g.applied| && Rooted(g, state, bound)
    requires g'.applied == TakenAt(g, k, taken)
    requires taken.baseline == if k == |g.applied| then g.bound else g.applied[k].1.baseline
    requires taken.before.Some?
    requires k == |g.applied| ==> taken.before.value.At() == g.state.At()
    requires k < |g.applied| ==> taken.before == g.applied[k].1.before
    ensures Rooted(g', state, bound)
  {
  }

  lemma {:induction false} HeldRooted(protocol: Protocol, policy: Policy, g: Group, state: ClientState, bound: Frontier)
    requires !g.removed && Inv(protocol, g) && Rooted(g, state, bound)
    ensures StepBack(policy, g).Some? && Rooted(StepBack(policy, g).value, state, bound)
  {
    StepBackKeepsPrefix(protocol, policy, g);
  }

  lemma {:induction false} FaresRooted(protocol: Protocol, policy: Policy, g: Group, record: Record, judged: Judgement,
                                       state: ClientState, bound: Frontier)
    requires !g.removed && Contested(g, record) && Rooted(g, state, bound)
    requires judged.Held? ==> Inv(protocol, g.(witnesses := judged.witnesses))
    requires !Fares(protocol, policy, g, record, judged).0.removed
    ensures Rooted(Fares(protocol, policy, g, record, judged).0, state, bound)
  {
    match judged
    case Held(known) => HeldRooted(protocol, policy, g.(witnesses := known), state, bound);
    case Accepted(change, frontier, next) =>
      TakenRooted(g, record.epoch - Base(g), EntryAt(g, record, change, frontier),
                  Fares(protocol, policy, g, record, judged).0, state, bound);
    case _ =>
  }

  lemma {:induction false} StepRooted(protocol: Protocol, g: Group, call: Call, state: ClientState, bound: Frontier)
    requires Inv(protocol, g) && !g.removed && Rooted(g, state, bound) && !Step(protocol, g, call).removed
    ensures Rooted(Step(protocol, g, call), state, bound)
  {
    match call
    case ApplyCall(policy, record) =>
      if !Contested(g, record) {
        UncontestedChangesNothing(protocol, policy, g, record);
      } else {
        ContestedShape(protocol, policy, g, record);
        if JudgedAt(protocol, policy, g, record).Held? {
          HeldKnown(protocol, policy, g, record);
        }
        FaresRooted(protocol, policy, g, record, JudgedAt(protocol, policy, g, record), state, bound);
      }
    case ConfirmCall(commitId) => ConfirmRooted(protocol, g, commitId, state, bound);
    case _ =>
  }

  lemma {:induction false} ConfirmRooted(protocol: Protocol, g: Group, commitId: CommitId, state: ClientState,
                                         bound: Frontier)
    requires Inv(protocol, g) && !g.removed && Rooted(g, state, bound)
    ensures Rooted(Confirm(g, commitId).0, state, bound)
  {
    ConfirmAdoptsOnItsBranch(protocol, g, commitId);
    if Confirm(g, commitId).1.Applied? {
      var taken := ConfirmShape(protocol, g, commitId);
      TakenRooted(g, |g.applied|, taken, Confirm(g, commitId).0, state, bound);
    }
  }

  lemma {:induction false} RunRooted(protocol: Protocol, g: Group, calls: seq<Call>, state: ClientState,
                                     bound: Frontier)
    requires Sound(protocol, g.owner) && Inv(protocol, g) && Rooted(g, state, bound)
    requires !Run(protocol, g, calls).removed
    ensures Rooted(Run(protocol, g, calls), state, bound)
    decreases |calls|
  {
    if calls != [] {
      BeforeLast(protocol, g, calls);
      RunRooted(protocol, g, calls[..|calls| - 1], state, bound);
      StepRooted(protocol, Run(protocol, g, calls[..|calls| - 1]), calls[|calls| - 1], state, bound);
    }
  }

  /**
   * Over any run of public calls under any policies, every commit of the chain was put there by
   * a call whose policy allowed it from the frontier bound before it: the one the group was
   * started with, or that of the commit before.
   */
  lemma {:induction false} EveryCommitWasAllowed(protocol: Protocol, owner: LeafOwner, state: ClientState,
                                                 bound: Frontier, calls: seq<Call>)
    requires Sound(protocol, owner) && !Run(protocol, Start(protocol, owner, state, bound), calls).removed
    ensures var start := Start(protocol, owner, state, bound);
            var end := Run(protocol, start, calls);
            && (forall i :: 0 <= i < |end.applied| ==>
                  && IsPut(protocol, start, calls, end.applied[i])
                  && end.applied[i].1.baseline == (if i == 0 then bound else end.applied[i - 1].1.frontier))
            && end.bound == (if end.applied == [] then bound else end.applied[|end.applied| - 1].1.frontier)
            && (end.applied == [] ==> end.state.At() == state.At())
  {
    var start := Start(protocol, owner, state, bound);
    var end := Run(protocol, start, calls);
    ReachableInv(protocol, owner, state, bound, calls);
    if start.removed {
      RemovedStays(protocol, start, calls);
    }
    RunPuts(protocol, start, calls);
    RunRooted(protocol, start, calls, state, bound);
    forall i | 0 <= i < |end.applied|
      ensures end.applied[i].1.baseline == (if i == 0 then bound else end.applied[i - 1].1.frontier)
    {
      if i > 0 {
        assert StepsFromLast(end, i);
      }
    }
  }
}

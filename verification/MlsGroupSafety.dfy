/** What stepping back keeps and drops, and when a group may move forward at all. */
module MlsGroupSafety {
  import opened Prelude
  import opened OrderedMaps
  import opened MlsGroupModel
  import opened MlsGroupInvariant

  // ----- stepping back -----------------------------------------------------------------------

  ghost predicate Own(g: Group, i: nat)
    requires i < |g.applied|
  {
    ByOwner(g.owner, g.applied[i].1.change)
  }

  /** A witness the group waits on lies at or before the epoch the commit at place `i` left. */
  ghost predicate Doubted(policy: Policy, g: Group, i: nat)
    requires i < |g.applied|
  {
    exists w :: 0 <= w < |g.witnesses|
                && policy.withheld(g.witnesses[w].1.committer, g.witnesses[w].1.frontier)
                && g.witnesses[w].1.epoch <= g.applied[i].0
  }

  /** Exactly the commits the group must not keep: doubted adds with no own commit at or after them. */
  ghost predicate Droppable(policy: Policy, g: Group, i: nat)
    requires i < |g.applied|
  {
    && Doubted(policy, g, i)
    && g.applied[i].1.change.added != []
    && forall j :: i <= j < |g.applied| ==> !Own(g, j)
  }

  lemma {:induction false} PlaceIsFirstDroppable(protocol: Protocol, policy: Policy, g: Group)
    requires !g.removed && Chained(protocol, g)
    ensures var place := StepBackPlace(policy, g);
            && (forall i :: 0 <= i < place ==> !Droppable(policy, g, i))
            && (place < |g.applied| ==> Droppable(policy, g, place))
  {
    var place := StepBackPlace(policy, g);
    var since := EarliestWithheld(policy, g.witnesses, g.state.epoch);
    var next := AfterOwn(g.owner, g.applied);
    EarliestIsEarliest(policy, g.witnesses, g.state.epoch);
    AfterOwnIsAfterOwn(g.owner, g.applied);
    FirstAddIsFirst(g.applied, since, next);
    forall i | 0 <= i < place
      ensures !Droppable(policy, g, i)
    {
      if i < next {
        assert Own(g, next - 1);
      } else if Doubted(policy, g, i) {
        assert g.applied[i].0 >= since;
      }
    }
    if place < |g.applied| {
      assert since < g.state.epoch;
      assert Doubted(policy, g, place);
      assert forall j :: place <= j < |g.applied| ==> !Own(g, j);
    }
  }

  /**
   * A step back never rejects. It keeps the longest prefix of the chain without a droppable
   * commit, so every own commit and all before it; it returns to the very state and frontier
   * from before the first commit dropped, and stashes every state it leaves.
   */
  lemma {:induction false} StepBackKeepsPrefix(protocol: Protocol, policy: Policy, g: Group)
    requires !g.removed && Inv(protocol, g)
    ensures StepBack(policy, g).Some?
    ensures var back := StepBack(policy, g).value;
            var kept := |back.applied|;
            && back.applied <= g.applied
            && (forall i :: 0 <= i < kept ==> !Droppable(policy, g, i))
            && (forall i :: 0 <= i < |g.applied| && Own(g, i) ==> i < kept)
            && back.witnesses == g.witnesses && back.pending == g.pending && !back.removed
            && (if kept == |g.applied| then back == g
                else
                  && Droppable(policy, g, kept)
                  && g.applied[kept].1.before == Some(back.state)
                  && back.bound == g.applied[kept].1.baseline
                  && g.resumable + [g.state] <= back.resumable
                  && |back.resumable| == |g.resumable| + |g.applied| - kept
                  && forall i :: kept < i < |g.applied| ==>
                       g.applied[i].1.before == Some(back.resumable[|g.resumable| + i - kept]))
  {
    StepBackCuts(protocol, policy, g);
    StepBackChained(protocol, policy, g);
    PlaceIsFirstDroppable(protocol, policy, g);
  }

  /** What is left has nothing to drop: stepping back again changes nothing. */
  lemma {:induction false} StepBackIdempotent(protocol: Protocol, policy: Policy, g: Group)
    requires !g.removed && Inv(protocol, g)
    ensures StepBack(policy, g).Some?
    ensures var back := StepBack(policy, g).value;
            && StepBack(policy, back) == Some(back)
            && forall i :: 0 <= i < |back.applied| ==> !Droppable(policy, back, i)
  {
    StepBackKeepsPrefix(protocol, policy, g);
    var back := StepBack(policy, g).value;
    StepBackChained(protocol, policy, g);
    PlaceIsFirstDroppable(protocol, policy, back);
    forall i | 0 <= i < |back.applied|
      ensures !Droppable(policy, back, i)
    {
      if Droppable(policy, back, i) {
        if |back.applied| < |g.applied| {
          forall j | i <= j < |g.applied|
            ensures !Own(g, j)
          {
            if j < |back.applied| {
              assert !Own(back, j);
            }
          }
        }
        assert Droppable(policy, g, i);
      }
    }
  }

  // ----- moving forward ----------------------------------------------------------------------

  /** A rejected, lost, stale, duplicate or early commit changes nothing, witnesses included. */
  lemma {:induction false} LosersChangeNothing(protocol: Protocol, policy: Policy, g: Group, record: Record)
    requires Inv(protocol, g)
    ensures var (g', outcome) := ApplyCommit(protocol, policy, g, record);
            outcome.Rejected? || outcome.Gap? || (outcome.Ignored? && outcome.reason != Withheld) ==> g' == g
  {
    if !Contested(g, record) {
      UncontestedChangesNothing(protocol, policy, g, record);
    } else {
      ContestedShape(protocol, policy, g, record);
      if JudgedAt(protocol, policy, g, record).Held? {
        HeldKnown(protocol, policy, g, record);
        StepBackChained(protocol, policy, g.(witnesses := JudgedAt(protocol, policy, g, record).witnesses));
      }
    }
  }

  /** A commit withheld leaves the group waiting, on a prefix of its chain and no later epoch. */
  lemma {:induction false} WithheldOnlyStepsBack(protocol: Protocol, policy: Policy, g: Group, record: Record)
    requires Inv(protocol, g)
    requires ApplyCommit(protocol, policy, g, record).1 == Ignored(Withheld)
    ensures var g' := ApplyCommit(protocol, policy, g, record).0;
            && Waiting(policy, g'.witnesses)
            && g'.applied <= g.applied
            && g'.state.epoch <= g.state.epoch
            && g'.pending == g.pending && !g'.removed
  {
    if !Contested(g, record) {
      UncontestedChangesNothing(protocol, policy, g, record);
    } else {
      ContestedShape(protocol, policy, g, record);
      assert JudgedAt(protocol, policy, g, record).Held?;
      HeldKnown(protocol, policy, g, record);
      var waiting := g.(witnesses := JudgedAt(protocol, policy, g, record).witnesses);
      StepBackKeepsPrefix(protocol, policy, waiting);
      StepBackChained(protocol, policy, waiting);
    }
  }

  /** While the group waits it takes no commit, whatever it is shown, and builds none. */
  lemma {:induction false} WaitingTakesNothing(protocol: Protocol, policy: Policy, g: Group, record: Record,
                                               draft: Bytes)
    requires Inv(protocol, g) && !g.removed
    requires Waiting(policy, g.witnesses)
    ensures var (g', outcome) := ApplyCommit(protocol, policy, g, record);
            && !outcome.Applied? && !outcome.Replaced? && !outcome.Removed?
            && g'.state.epoch <= g.state.epoch
            && Waiting(policy, g'.witnesses)
    ensures BuildCommit(protocol, policy, g, draft) == (g, false)
  {
    if !Contested(g, record) {
      UncontestedChangesNothing(protocol, policy, g, record);
    } else {
      ContestedShape(protocol, policy, g, record);
      var judged := JudgedAt(protocol, policy, g, record);
      if judged.Accepted? || judged.Lost? {
        var commit := protocol.readCommit(record.bytes).value;
        var change := protocol.process(FromAt(g, record).At(), commit).change;
        if policy.withheld(change.committer, commit.frontier) {
          SetKeepsWaiting(policy, g.witnesses, record.id, Witness(change.committer, record.epoch, commit.frontier));
        }
        assert false;
      } else if judged.Held? {
        LosersChangeNothing(protocol, policy, g, record);
        HeldKnown(protocol, policy, g, record);
        StepBackChained(protocol, policy, g.(witnesses := judged.witnesses));
        WithheldOnlyStepsBack(protocol, policy, g, record);
      }
    }
  }

  lemma {:induction false} TookLeadsOn(protocol: Protocol, g: Group, record: Record, change: Change, frontier: Frontier,
                                       next: Branch)
    requires Inv(protocol, g) && Contested(g, record) && protocol.active(next) && next.epoch == record.epoch + 1
    ensures var k := record.epoch - Base(g);
            var g' := TookAt(g, k, EntryAt(g, record, change, frontier), next);
            && g'.state.At() == next && |g'.applied| == k + 1 && g'.applied[k].1.commitId == record.id
  {
    var k := record.epoch - Base(g);
    var taken := EntryAt(g, record, change, frontier);
    TookChained(protocol, g, k, taken, next);
    TookEntries(g, k, taken, next);
  }

  /** A commit taken leads one epoch past the one it was made in, and ends every wait. */
  lemma {:induction false} TakingLeadsOn(protocol: Protocol, policy: Policy, g: Group, record: Record)
    requires Inv(protocol, g)
    ensures var (g', outcome) := ApplyCommit(protocol, policy, g, record);
            && (outcome.Applied? ==> record.epoch == g.state.epoch)
            && (outcome.Replaced? ==> record.epoch < g.state.epoch)
            && (outcome.Applied? || outcome.Replaced? ==>
                  && outcome.epoch == g'.state.epoch == record.epoch + 1 && g'.witnesses == []
                  && Contiguously(g) && Base(g) <= record.epoch
                  && |g'.applied| == record.epoch - Base(g) + 1
                  && g'.applied[record.epoch - Base(g)].1.commitId == record.id)
  {
    if !Contested(g, record) {
      UncontestedChangesNothing(protocol, policy, g, record);
    } else {
      ContestedShape(protocol, policy, g, record);
      var judged := JudgedAt(protocol, policy, g, record);
      if judged.Accepted? && protocol.active(judged.next) {
        TookLeadsOn(protocol, g, record, judged.change, judged.frontier, judged.next);
      }
    }
  }

  /**
   * A pending commit is adopted exactly on the epoch and branch it was built on; otherwise it
   * is only dropped. Waiting does not stop it, and adopting it ends the wait.
   */
  lemma {:induction false} ConfirmAdoptsOnItsBranch(protocol: Protocol, g: Group, commitId: CommitId)
    requires Inv(protocol, g)
    ensures var (g', outcome) := Confirm(g, commitId);
            && g'.pending == None
            && (outcome.Applied? <==> g.pending.Some? && g.pending.value.before.At() == g.state.At())
            && (!outcome.Applied? ==> outcome == Rejected && g' == g.(pending := None))
            && (outcome.Applied? ==>
                  && !g.removed
                  && g'.state == g.pending.value.state && g'.state.epoch == g.state.epoch + 1
                  && outcome == Applied(g'.state.epoch)
                  && g'.bound == g.pending.value.frontier
                  && g'.witnesses == []
                  && |g'.applied| == |g.applied| + 1
                  && g'.applied[|g.applied|].1.commitId == commitId)
  {
    if g.pending.Some? {
      var pending := g.pending.value;
      SameEpochIsSameBranch(g.state, pending.before);
      if SameEpoch(g.state, pending.before) {
        TakeShape(g, g.state.epoch, AppliedEpoch(commitId, Some(pending.before), g.bound, pending.frontier,
                                                 pending.change));
      }
    }
  }

  /** Calls that neither build, confirm nor abandon. */
  ghost predicate LeavesPending(calls: seq<Call>) {
    forall call :: call in calls ==> call.ApplyCall? || call.MessageCall?
  }

  lemma {:induction false} ApplyKeepsPending(protocol: Protocol, policy: Policy, g: Group, record: Record)
    ensures ApplyCommit(protocol, policy, g, record).0.pending == g.pending
  {
  }

  lemma {:induction false} RunKeepsPending(protocol: Protocol, g: Group, calls: seq<Call>)
    requires LeavesPending(calls)
    ensures Run(protocol, g, calls).pending == g.pending
    decreases |calls|
  {
    if calls != [] {
      assert calls[0] in calls;
      if calls[0].ApplyCall? {
        ApplyKeepsPending(protocol, calls[0].policy, g, calls[0].record);
      }
      RunKeepsPending(protocol, Step(protocol, g, calls[0]), calls[1..]);
    }
  }

  /**
   * Whatever is taken, replaced, withheld or sent after a commit is built, confirming it adopts
   * it exactly if the group is still, or again, on the branch it was built on; the group is then
   * in the branch built, and binds the frontier that was the latest when it was built.
   */
  lemma {:induction false} BuiltIsAdoptedOnItsBranch(protocol: Protocol, policy: Policy, g: Group, draft: Bytes,
                                                     calls: seq<Call>, commitId: CommitId)
    requires Sound(protocol, g.owner) && Inv(protocol, g)
    requires BuildCommit(protocol, policy, g, draft).1 && LeavesPending(calls)
    ensures protocol.build(g.state.At(), draft).Some?
    ensures var built := protocol.build(g.state.At(), draft).value;
            var end := Run(protocol, BuildCommit(protocol, policy, g, draft).0, calls);
            var (g', outcome) := Confirm(end, commitId);
            && (outcome.Applied? <==> end.state.At() == g.state.At())
            && (outcome.Applied? ==>
                  && g'.state.At() == Branch(g.state.epoch + 1, built.authenticator)
                  && g'.bound == policy.frontier
                  && |g'.applied| == |end.applied| + 1
                  && g'.applied[|end.applied|].1.change == built.change)
  {
    var pending := BuildCommit(protocol, policy, g, draft).0;
    var end := Run(protocol, pending, calls);
    BuildKeepsInv(protocol, policy, g, draft);
    RunKeepsInv(protocol, pending, calls);
    RunKeepsPending(protocol, pending, calls);
    ConfirmAdoptsOnItsBranch(protocol, end, commitId);
    if Confirm(end, commitId).1.Applied? {
      ConfirmedChange(protocol, end, commitId);
    }
  }

  lemma {:induction false} ConfirmedChange(protocol: Protocol, g: Group, commitId: CommitId)
    requires Inv(protocol, g) && Confirm(g, commitId).1.Applied?
    ensures var g' := Confirm(g, commitId).0;
            |g'.applied| == |g.applied| + 1 && g'.applied[|g.applied|].1.change == g.pending.value.change
  {
    var pending := g.pending.value;
    SameEpochIsSameBranch(g.state, pending.before);
    TakeShape(g, g.state.epoch, AppliedEpoch(commitId, Some(pending.before), g.bound, pending.frontier,
                                             pending.change));
  }

  lemma {:induction false} RunOfTwo(protocol: Protocol, g: Group, first: Call, second: Call)
    ensures Run(protocol, g, [first, second]) == Step(protocol, Step(protocol, g, first), second)
  {
    assert [first, second][1..] == [second] && [second][1..] == [];
    assert Run(protocol, Step(protocol, g, first), [second]) == Step(protocol, Step(protocol, g, first), second);
  }

  function PlainChange(committer: Identity): Change {
    Change(committer, committer, [], [], [], [], None)
  }

  /** A policy that withholds all or none. */
  function LaxPolicy(withholds: bool): Policy {
    Policy([], (identity, frontier) => true, frontier => 0, change => 0, (change, from, to) => true,
           (identity, frontier) => withholds)
  }

  /** A waiting group does move on: build a commit, show the group one withheld, confirm. */
  lemma {:induction false} WaitingGroupMovesOn()
    returns (protocol: Protocol, owner: LeafOwner, state: ClientState, calls: seq<Call>, withholding: Policy)
    ensures Sound(protocol, owner)
    ensures var g := Run(protocol, Start(protocol, owner, state, []), calls);
            && Waiting(withholding, g.witnesses) && !g.removed
            && Confirm(g, []).1 == Applied(g.state.epoch + 1)
            && !Waiting(withholding, Confirm(g, []).0.witnesses)
  {
    var authenticator: Authenticator := seq(AUTHENTICATOR_LENGTH, _ => 0);
    var me: Identity, them: Identity := ['a'], ['b'];
    owner := LeafOwner(me, me);
    state := ClientState(0, authenticator, 0);
    protocol := Protocol(bytes => Some(Commit(0, [], [])),
                         (branch, commit) => Judged(PlainChange(them), None),
                         (branch, draft) => Some(Built(PlainChange(me), authenticator)),
                         branch => true);
    withholding := LaxPolicy(true);
    var record := Record([], 0, []);
    calls := [BuildCall(LaxPolicy(false), []), ApplyCall(withholding, record)];
    var start := Start(protocol, owner, state, []);
    var built := BuildCommit(protocol, LaxPolicy(false), start, []).0;
    assert built == start.(pending := built.pending) && built.pending.Some?;
    var known := Witness(them, 0, []);
    assert Set(built.witnesses, record.id, known) == [(record.id, known)];
    var waiting := built.(witnesses := [(record.id, known)]);
    assert withholding.withheld(waiting.witnesses[0].1.committer, waiting.witnesses[0].1.frontier);
    assert Waiting(withholding, waiting.witnesses);
    assert StepBack(withholding, waiting) == Some(waiting);
    assert ApplyCommit(protocol, withholding, built, record).0 == waiting;
    RunOfTwo(protocol, start, calls[0], calls[1]);
  }

  /** A removed group stays in its epoch and removed, over any run. */
  lemma {:induction false} RemovedStays(protocol: Protocol, g: Group, calls: seq<Call>)
    requires Sound(protocol, g.owner) && Inv(protocol, g) && g.removed
    ensures var end := Run(protocol, g, calls);
            end.removed && end.state.At() == g.state.At() && end.bound == g.bound && end.applied == g.applied
    decreases |calls|
  {
    if calls != [] {
      var next := Step(protocol, g, calls[0]);
      StepKeepsInv(protocol, g, calls[0]);
      if calls[0].ConfirmCall? {
        ConfirmAdoptsOnItsBranch(protocol, g, calls[0].commitId);
      }
      RemovedStays(protocol, next, calls[1..]);
    }
  }
}

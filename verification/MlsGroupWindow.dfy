/** How long a rival for an earlier epoch is judged: till the state before the commit it contests is dropped. */
module MlsGroupWindow {
  import opened Prelude
  import opened MlsGroupModel
  import opened MlsGroupInvariant
  import opened MlsGroupSafety

  /** The epoch of the commit a call took, if it took one. */
  function TookEpoch(protocol: Protocol, g: Group, call: Call): Option<nat> {
    match call
    case ApplyCall(policy, record) =>
      var outcome := ApplyCommit(protocol, policy, g, record).1;
      if outcome.Applied? || outcome.Replaced? then Some(record.epoch) else None
    case ConfirmCall(commitId) => if Confirm(g, commitId).1.Applied? then Some(g.state.epoch) else None
    case _ => None
  }

  /** The epoch of the commit that call `i` of a run took, if it took one. */
  function TookBy(protocol: Protocol, g: Group, calls: seq<Call>, i: nat): Option<nat>
    requires i < |calls|
  {
    TookEpoch(protocol, Run(protocol, g, calls[..i]), calls[i])
  }

  /** What each call of a run took. */
  function Tooks(protocol: Protocol, g: Group, calls: seq<Call>): (tooks: seq<Option<nat>>)
    ensures |tooks| == |calls| && forall i :: 0 <= i < |calls| ==> tooks[i] == TookBy(protocol, g, calls, i)
  {
    seq(|calls|, i requires 0 <= i < |calls| => TookBy(protocol, g, calls, i))
  }

  /** A commit for 8 epochs later or more was taken, and none for this epoch after that. */
  ghost predicate Outlived(tooks: seq<Option<nat>>, epoch: nat) {
    exists i :: 0 <= i < |tooks| && OutlivedBy(tooks, epoch, i)
  }

  ghost predicate OutlivedBy(tooks: seq<Option<nat>>, epoch: nat, i: nat)
    requires i < |tooks|
  {
    && tooks[i].Some? && tooks[i].value >= epoch + 8
    && forall j :: i < j < |tooks| ==> tooks[j] != Some(epoch)
  }

  /** The group holds a commit for this epoch. */
  ghost predicate HasTaken(g: Group, epoch: nat) {
    Contiguously(g) && Base(g) <= epoch < g.state.epoch
  }

  /** The state before that commit was dropped. */
  ghost predicate Dropped(g: Group, epoch: nat)
    requires HasTaken(g, epoch)
  {
    g.applied[epoch - Base(g)].1.before.None?
  }

  // ----- one call ----------------------------------------------------------------------------

  /** What a call that took a commit for `t`, or none, makes of the entry of an epoch. */
  ghost predicate Moves(g: Group, g': Group, t: Option<nat>, epoch: nat) {
    && Base(g') == Base(g)
    && (HasTaken(g', epoch) ==>
          match t
          case None => HasTaken(g, epoch) && Dropped(g', epoch) == Dropped(g, epoch)
          case Some(taken) =>
            && epoch <= taken
            && (epoch == taken ==> !Dropped(g', epoch))
            && (epoch < taken ==>
                  && HasTaken(g, epoch)
                  && (Dropped(g', epoch) <==> Dropped(g, epoch) || taken >= epoch + RETAINED_EPOCHS)))
  }

  lemma {:induction false} TakenMoves(g: Group, k: nat, taken: AppliedEpoch, g': Group, epoch: nat)
    requires Contiguously(g) && k <= |g.applied| && taken.before.Some?
    requires g'.applied == TakenAt(g, k, taken) && g'.state.epoch == Base(g) + k + 1
    ensures Moves(g, g', Some(Base(g) + k), epoch)
  {
  }

  lemma {:induction false} PrefixMoves(g: Group, g': Group, epoch: nat)
    requires Contiguously(g) && g'.applied <= g.applied && Base(g') == Base(g)
    ensures Moves(g, g', None, epoch)
  {
  }

  lemma {:induction false} HeldMoves(protocol: Protocol, policy: Policy, g: Group, waiting: Group, epoch: nat)
    requires !g.removed && Inv(protocol, waiting) && waiting == g.(witnesses := waiting.witnesses)
    ensures StepBack(policy, waiting).Some? && Moves(g, StepBack(policy, waiting).value, None, epoch)
  {
    StepBackCuts(protocol, policy, waiting);
    var back := StepBack(policy, waiting).value;
    PrefixMoves(g, back, epoch);
  }

  lemma {:induction false} FaresMoves(protocol: Protocol, policy: Policy, g: Group, record: Record, judged: Judgement,
                                      epoch: nat)
    requires Contested(g, record)
    requires judged.Held? ==> Inv(protocol, g.(witnesses := judged.witnesses))
    requires judged.Accepted? ==> judged.next.epoch == record.epoch + 1
    requires !Fares(protocol, policy, g, record, judged).0.removed
    ensures var (next, outcome) := Fares(protocol, policy, g, record, judged);
            Moves(g, next, if outcome.Applied? || outcome.Replaced? then Some(record.epoch) else None, epoch)
  {
    match judged
    case Held(known) => HeldMoves(protocol, policy, g, g.(witnesses := known), epoch);
    case Accepted(change, frontier, next) => AcceptedMoves(g, record, change, frontier, next, epoch);
    case _ => PrefixMoves(g, g, epoch);
  }

  lemma {:induction false} ApplyMoves(protocol: Protocol, policy: Policy, g: Group, record: Record, epoch: nat)
    requires Inv(protocol, g) && !ApplyCommit(protocol, policy, g, record).0.removed
    ensures Moves(g, ApplyCommit(protocol, policy, g, record).0, TookEpoch(protocol, g, ApplyCall(policy, record)),
                  epoch)
  {
    if !Contested(g, record) {
      UncontestedChangesNothing(protocol, policy, g, record);
    } else {
      ContestedShape(protocol, policy, g, record);
      if JudgedAt(protocol, policy, g, record).Held? {
        HeldKnown(protocol, policy, g, record);
      }
      FaresMoves(protocol, policy, g, record, JudgedAt(protocol, policy, g, record), epoch);
    }
  }

  lemma {:induction false} AcceptedMoves(g: Group, record: Record, change: Change, frontier: Frontier, next: Branch,
                                         epoch: nat)
    requires Contested(g, record)
    requires next.epoch == record.epoch + 1
    ensures Moves(g, TookAt(g, record.epoch - Base(g), EntryAt(g, record, change, frontier), next), Some(record.epoch),
                  epoch)
  {
    var k, taken := record.epoch - Base(g), EntryAt(g, record, change, frontier);
    ResumedBranch(g.resumable, ClientState(next.epoch, next.authenticator, 0));
    TakenMoves(g, k, taken, TookAt(g, k, taken, next), epoch);
  }

  lemma {:induction false} ConfirmMoves(protocol: Protocol, g: Group, commitId: CommitId, epoch: nat)
    requires Inv(protocol, g) && !g.removed
    ensures Moves(g, Confirm(g, commitId).0, TookEpoch(protocol, g, ConfirmCall(commitId)), epoch)
  {
    ConfirmAdoptsOnItsBranch(protocol, g, commitId);
    if Confirm(g, commitId).1.Applied? {
      var pending := g.pending.value;
      var taken := AppliedEpoch(commitId, Some(pending.before), g.bound, pending.frontier, pending.change);
      SameEpochIsSameBranch(g.state, pending.before);
      TakeShape(g, g.state.epoch, taken);
      TakenMoves(g, |g.applied|, taken, Confirm(g, commitId).0, epoch);
    }
  }

  lemma {:induction false} StepMoves(protocol: Protocol, g: Group, call: Call, epoch: nat)
    requires Inv(protocol, g) && !g.removed && !Step(protocol, g, call).removed
    ensures Moves(g, Step(protocol, g, call), TookEpoch(protocol, g, call), epoch)
  {
    match call
    case ApplyCall(policy, record) => ApplyMoves(protocol, policy, g, record, epoch);
    case ConfirmCall(commitId) => ConfirmMoves(protocol, g, commitId, epoch);
    case _ => PrefixMoves(g, Step(protocol, g, call), epoch);
  }

  // ----- over runs ---------------------------------------------------------------------------

  lemma {:induction false} RunLast(protocol: Protocol, g: Group, calls: seq<Call>)
    requires calls != []
    ensures Run(protocol, g, calls) == Step(protocol, Run(protocol, g, calls[..|calls| - 1]), calls[|calls| - 1])
    decreases |calls|
  {
    if |calls| > 1 {
      RunLast(protocol, Step(protocol, g, calls[0]), calls[1..]);
      assert calls[1..][..|calls| - 2] == calls[..|calls| - 1][1..];
    } else {
      assert calls[1..] == [] && calls[..0] == [];
    }
  }

  lemma {:induction false} OutlivedLast(tooks: seq<Option<nat>>, took: Option<nat>, epoch: nat)
    ensures Outlived(tooks + [took], epoch)
            <==> || (took.Some? && took.value >= epoch + RETAINED_EPOCHS)
                 || (Outlived(tooks, epoch) && took != Some(epoch))
  {
    var longer, n := tooks + [took], |tooks|;
    if took.Some? && took.value >= epoch + RETAINED_EPOCHS {
      assert OutlivedBy(longer, epoch, n);
    }
    if Outlived(tooks, epoch) && took != Some(epoch) {
      var i :| 0 <= i < n && OutlivedBy(tooks, epoch, i);
      assert OutlivedBy(longer, epoch, i);
    }
    if Outlived(longer, epoch) {
      var i :| 0 <= i < |longer| && OutlivedBy(longer, epoch, i);
      assert longer[n] == took;
      assert i < n ==> OutlivedBy(tooks, epoch, i) by {
        assert forall j :: 0 <= j < n ==> longer[j] == tooks[j];
      }
    }
  }

  lemma {:induction false} TooksLast(protocol: Protocol, g: Group, calls: seq<Call>)
    requires calls != []
    ensures var n := |calls| - 1;
            Tooks(protocol, g, calls) == Tooks(protocol, g, calls[..n]) + [TookBy(protocol, g, calls, n)]
  {
    var n := |calls| - 1;
    forall i | 0 <= i < n
      ensures TookBy(protocol, g, calls, i) == TookBy(protocol, g, calls[..n], i)
    {
      assert calls[..n][..i] == calls[..i];
    }
  }

  /**
   * Over any run of public calls under any policies: a group has dropped the state before the
   * commit it holds for an epoch exactly if it took a commit for 8 epochs later or more, and took
   * none for that epoch since.
   */
  lemma {:induction false} DroppedExactly(protocol: Protocol, owner: LeafOwner, state: ClientState, bound: Frontier,
                                          calls: seq<Call>, epoch: nat)
    requires Sound(protocol, owner)
    requires !Run(protocol, Start(protocol, owner, state, bound), calls).removed
    ensures var start := Start(protocol, owner, state, bound);
            var end := Run(protocol, start, calls);
            && Contiguously(end) && Base(end) == state.epoch
            && (HasTaken(end, epoch) ==> (Dropped(end, epoch) <==> Outlived(Tooks(protocol, start, calls), epoch)))
    decreases |calls|
  {
    var start := Start(protocol, owner, state, bound);
    ReachableInv(protocol, owner, state, bound, calls);
    if calls != [] {
      var n := |calls| - 1;
      var before := Run(protocol, start, calls[..n]);
      BeforeLast(protocol, start, calls);
      DroppedExactly(protocol, owner, state, bound, calls[..n], epoch);
      StepMoves(protocol, before, calls[n], epoch);
      TooksLast(protocol, start, calls);
      OutlivedLast(Tooks(protocol, start, calls[..n]), TookBy(protocol, start, calls, n), epoch);
      DroppedOn(before, Run(protocol, start, calls), TookBy(protocol, start, calls, n), epoch,
                Outlived(Tooks(protocol, start, calls[..n]), epoch), Outlived(Tooks(protocol, start, calls), epoch));
    }
  }

  lemma {:induction false} DroppedOn(g: Group, g': Group, took: Option<nat>, epoch: nat, was: bool, now: bool)
    requires Moves(g, g', took, epoch)
    requires HasTaken(g, epoch) ==> (Dropped(g, epoch) <==> was)
    requires now <==> (took.Some? && took.value >= epoch + RETAINED_EPOCHS) || (was && took != Some(epoch))
    ensures HasTaken(g', epoch) ==> (Dropped(g', epoch) <==> now)
  {
  }

  lemma {:induction false} BeforeLast(protocol: Protocol, g: Group, calls: seq<Call>)
    requires Sound(protocol, g.owner) && Inv(protocol, g) && calls != []
    requires !Run(protocol, g, calls).removed
    ensures var before := Run(protocol, g, calls[..|calls| - 1]);
            && Inv(protocol, before) && !before.removed
            && Run(protocol, g, calls) == Step(protocol, before, calls[|calls| - 1])
  {
    var n := |calls| - 1;
    var before := Run(protocol, g, calls[..n]);
    RunLast(protocol, g, calls);
    RunKeepsInv(protocol, g, calls[..n]);
    RunOwner(protocol, g, calls[..n]);
    if before.removed {
      RemovedStays(protocol, before, [calls[n]]);
    }
  }

  lemma {:induction false} RunOwner(protocol: Protocol, g: Group, calls: seq<Call>)
    requires Sound(protocol, g.owner) && Inv(protocol, g)
    ensures Run(protocol, g, calls).owner == g.owner
    decreases |calls|
  {
    if calls != [] {
      StepKeepsInv(protocol, g, calls[0]);
      RunOwner(protocol, Step(protocol, g, calls[0]), calls[1..]);
    }
  }

  /**
   * So in every group a run reaches, a rival for an earlier epoch is ignored as stale, however
   * strong it is, exactly if a commit for 8 epochs later or more was taken since the last for its
   * epoch; and once the group is more than 8 epochs past it there was one.
   */
  lemma {:induction false} StaleExactlyOnceOutlived(protocol: Protocol, owner: LeafOwner, state: ClientState,
                                                    bound: Frontier, calls: seq<Call>, policy: Policy, record: Record)
    requires Sound(protocol, owner)
    requires var end := Run(protocol, Start(protocol, owner, state, bound), calls);
             && !end.removed && state.epoch <= record.epoch < end.state.epoch
             && (HasTaken(end, record.epoch) ==> end.applied[record.epoch - Base(end)].1.commitId != record.id)
    ensures var start := Start(protocol, owner, state, bound);
            var end := Run(protocol, start, calls);
            var (next, outcome) := ApplyCommit(protocol, policy, end, record);
            && (outcome == Ignored(Stale) <==> Outlived(Tooks(protocol, start, calls), record.epoch))
            && (outcome == Ignored(Stale) ==> next == end)
            && (end.state.epoch - record.epoch > 8 ==> outcome == Ignored(Stale))
  {
    ReachableInv(protocol, owner, state, bound, calls);
    DroppedExactly(protocol, owner, state, bound, calls, record.epoch);
    StaleExactlyOnceDropped(protocol, policy, Run(protocol, Start(protocol, owner, state, bound), calls), record);
  }

  /** Judged exactly while the state before the commit taken there is kept. */
  lemma {:induction false} StaleExactlyOnceDropped(protocol: Protocol, policy: Policy, g: Group, record: Record)
    requires !g.removed && Inv(protocol, g) && Base(g) <= record.epoch < g.state.epoch
    requires g.applied[record.epoch - Base(g)].1.commitId != record.id
    ensures var (next, outcome) := ApplyCommit(protocol, policy, g, record);
            && (outcome == Ignored(Stale) <==> Dropped(g, record.epoch))
            && (Dropped(g, record.epoch) ==> next == g)
            && (g.state.epoch - record.epoch > RETAINED_EPOCHS ==> Dropped(g, record.epoch))
  {
    if Contested(g, record) {
      ContestedShape(protocol, policy, g, record);
    } else {
      UncontestedChangesNothing(protocol, policy, g, record);
    }
  }
}

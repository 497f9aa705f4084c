/** The object a device holds, updated in place; every method computes its function in `MlsGroupModel`. */
module MlsGroups {
  import opened Prelude
  import opened OrderedMaps
  import opened MlsGroupModel
  import opened MlsGroupInvariant

  // ----- loops over the witnesses and the chain ----------------------------------------------

  method AnyWithheld(policy: Policy, witnesses: seq<(CommitId, Witness)>) returns (waiting: bool)
    ensures waiting == Waiting(policy, witnesses)
  {
    for i := 0 to |witnesses|
      invariant forall w :: 0 <= w < i ==> !policy.withheld(witnesses[w].1.committer, witnesses[w].1.frontier)
    {
      if policy.withheld(witnesses[i].1.committer, witnesses[i].1.frontier) {
        return true;
      }
    }
    return false;
  }

  method EarliestWithheldEpoch(policy: Policy, witnesses: seq<(CommitId, Witness)>, latest: nat) returns (since: nat)
    ensures since == EarliestWithheld(policy, witnesses, latest)
  {
    since := latest;
    for i := 0 to |witnesses|
      invariant EarliestWithheld(policy, witnesses, latest) == EarliestWithheld(policy, witnesses[i..], since)
    {
      var w := witnesses[i].1;
      assert witnesses[i..][1..] == witnesses[i + 1..];
      if policy.withheld(w.committer, w.frontier) && w.epoch < since {
        since := w.epoch;
      }
    }
  }

  method NextAfterOwn(owner: LeafOwner, applied: seq<(nat, AppliedEpoch)>) returns (next: nat)
    ensures next == AfterOwn(owner, applied)
  {
    next := |applied|;
    assert applied[..next] == applied;
    while next > 0 && !ByOwner(owner, applied[next - 1].1.change)
      invariant 0 <= next <= |applied|
      invariant AfterOwn(owner, applied) == AfterOwn(owner, applied[..next])
    {
      assert applied[..next][..next - 1] == applied[..next - 1];
      next := next - 1;
    }
  }

  method FindAdd(applied: seq<(nat, AppliedEpoch)>, since: nat, start: nat) returns (place: nat)
    requires start <= |applied|
    ensures place == FirstAdd(applied, since, start)
  {
    place := start;
    while place < |applied| && !(applied[place].0 >= since && |applied[place].1.change.added| > 0)
      invariant start <= place <= |applied|
      invariant FirstAdd(applied, since, start) == FirstAdd(applied, since, place)
    {
      place := place + 1;
    }
  }

  method CollectStatesBeyond(applied: seq<(nat, AppliedEpoch)>, from: nat) returns (left: seq<ClientState>)
    requires StatesBeyond(applied, from).Some?
    ensures Some(left) == StatesBeyond(applied, from)
  {
    left := [];
    assert applied[0..] == applied;
    for i := 0 to |applied|
      invariant StatesBeyond(applied[i..], from).Some?
      invariant StatesBeyond(applied, from).value == left + StatesBeyond(applied[i..], from).value
    {
      assert applied[i..][0] == applied[i] && applied[i..][1..] == applied[i + 1..];
      if applied[i].0 > from {
        left := left + [applied[i].1.before.value];
      }
    }
    assert applied[|applied|..] == [] && left + [] == left;
  }

  /** Deletes every key from `from` on, one at a time. */
  method DeleteFrom(applied: seq<(nat, AppliedEpoch)>, ghost base: nat, from: nat) returns (kept: seq<(nat,
                    AppliedEpoch)>)
    requires Contiguous(applied, base) && base <= from <= base + |applied|
    ensures kept == Below(applied, from)
  {
    kept := applied;
    ghost var cut := from - base;
    for i := 0 to |applied|
      invariant kept == if i <= cut then applied else applied[..cut] + applied[i..]
    {
      if applied[i].0 >= from {
        assert kept[cut] == applied[i];
        DeleteAt(kept, cut);
        kept := Delete(kept, applied[i].0);
      }
    }
    BelowContiguous(applied, base, from);
  }

  /** The stashed state of the epoch `state` is in, or `state`; stashed states up to it are dropped. */
  method Resume(left: seq<ClientState>, state: ClientState) returns (resumed: ClientState, rest: seq<ClientState>)
    ensures resumed == Resumed(left, state)
    ensures rest == Beyond(left, state.epoch)
  {
    var stashed: Option<ClientState> := None;
    for i := 0 to |left|
      invariant stashed == None
      invariant FindSameEpoch(left, state) == FindSameEpoch(left[i..], state)
    {
      if SameEpoch(left[i], state) {
        stashed := Some(left[i]);
        break;
      }
      assert left[i..][1..] == left[i + 1..];
    }
    rest := [];
    for i := 0 to |left|
      invariant Beyond(left, state.epoch) == rest + Beyond(left[i..], state.epoch)
    {
      assert left[i..][1..] == left[i + 1..];
      if left[i].epoch > state.epoch {
        rest := rest + [left[i]];
      }
    }
    resumed := if stashed.Some? then stashed.value else state;
  }

  // ----- the group ---------------------------------------------------------------------------

  class MlsGroup {
    const protocol: Protocol
    const owner: LeafOwner
    var state: ClientState
    var bound: Frontier
    var removed: bool
    var pending: Option<PendingCommit>
    var applied: seq<(nat, AppliedEpoch)>
    var witnesses: seq<(CommitId, Witness)>
    var resumable: seq<ClientState>

    function View(): Group
      reads this
    {
      Group(owner, state, bound, removed, pending, applied, witnesses, resumable)
    }

    ghost predicate Valid()
      reads this
    {
      Inv(protocol, View()) && Sound(protocol, owner)
    }

    constructor (protocol: Protocol, owner: LeafOwner, state: ClientState, bound: Frontier)
      requires Sound(protocol, owner)
      ensures Valid() && this.protocol == protocol
      ensures View() == Start(protocol, owner, state, bound)
    {
      this.protocol := protocol;
      this.owner := owner;
      this.state := state;
      this.bound := bound;
      this.removed := !protocol.active(state.At());
      this.pending := None;
      this.applied := [];
      this.witnesses := [];
      this.resumable := [];
    }

    /** Keeps a commit that proves operations not verified here; tells whether the group now waits. */
    method KeepWitness(policy: Policy, record: Record, committer: Identity, frontier: Frontier) returns (waiting: bool)
      modifies this`witnesses
      ensures witnesses == if policy.withheld(committer, frontier)
                           then Set(old(witnesses), record.id, Witness(committer, record.epoch, frontier))
                           else old(witnesses)
      ensures waiting == Waiting(policy, witnesses)
    {
      if policy.withheld(committer, frontier) {
        witnesses := Set(witnesses, record.id, Witness(committer, record.epoch, frontier));
      }
      waiting := AnyWithheld(policy, witnesses);
    }

    /** Sets the entry of `epoch`, then walks the chain to let go of states too old to return to. */
    method Take(epoch: nat, taken: AppliedEpoch)
      requires Contiguously(View()) && Base(View()) <= epoch <= state.epoch
      modifies this`applied
      ensures applied == MlsGroupModel.Take(old(applied), epoch, taken)
    {
      var oldest := epoch + 1 - RETAINED_EPOCHS;
      ghost var base := Base(View());
      SetPrefix(View(), epoch, taken);
      applied := Set(applied, epoch, taken);
      ghost var all := applied;
      for i := 0 to |applied|
        invariant |applied| == |all| && Contiguous(all, base)
        invariant forall j :: 0 <= j < |all| ==>
                    applied[j] == if j < i && all[j].0 < oldest then (all[j].0, all[j].1.(before := None)) else all[j]
      {
        var held: nat, entry := applied[i].0, applied[i].1;
        if held < oldest && entry.before.Some? {
          SetInPlace(applied, i, entry.(before := None));
          applied := Set(applied, held, entry.(before := None));
        }
      }
      assert applied == DropStates(all, oldest);
    }

    /** Steps back to before the first commit that adds leaves and may rest on withheld operations. */
    method StepBack(policy: Policy)
      requires Valid() && !removed
      modifies this`state, this`bound, this`applied, this`resumable
      ensures Some(View()) == MlsGroupModel.StepBack(policy, old(View()))
      ensures Valid() && !removed
    {
      StepBackChained(protocol, policy, View());
      var since := EarliestWithheldEpoch(policy, witnesses, state.epoch);
      var next := NextAfterOwn(owner, applied);
      var place := FindAdd(applied, since, next);
      if place < |applied| {
        var (from, first) := applied[place];
        var left := CollectStatesBeyond(applied, from);
        var kept := DeleteFrom(applied, Base(View()), from);
        resumable := resumable + [state] + left;
        state := first.before.value;
        bound := first.baseline;
        applied := kept;
      }
    }

    /**
     * Processes a commit up to its judgement, and tells how it fares. A commit that makes the
     * group wait is kept as a witness.
     */
    method JudgeCommit(policy: Policy, record: Record, from: ClientState, baseline: Frontier,
                       rival: Option<AppliedEpoch>)
      returns (judged: Judgement)
      modifies this`witnesses
      ensures judged == Judge(protocol, policy, old(witnesses), record, from, baseline, rival)
      ensures witnesses == if judged.Held? then judged.witnesses else old(witnesses)
    {
      var read := protocol.readCommit(record.bytes);
      if read.None? || read.value.epoch != record.epoch {
        return Refused;
      }
      var commit := read.value;
      match protocol.process(from.At(), commit) {
        case Unprocessable =>
          return Refused;
        case Unjudged =>
          var waiting := AnyWithheld(policy, witnesses);
          return if waiting then Held(witnesses) else Refused;
        case Judged(change, settled) =>
          var waiting := KeepWitness(policy, record, change.committer, commit.frontier);
          if waiting {
            return Held(witnesses);
          }
          assert policy.withheld(change.committer, commit.frontier) ==> false by {
            if policy.withheld(change.committer, commit.frontier) {
              SetKeepsWaiting(policy, old(witnesses), record.id,
                              Witness(change.committer, record.epoch, commit.frontier));
            }
          }
          if !Permits(policy, change, commit.frontier, baseline) {
            return Refused;
          }
          if rival.Some? && !Wins(policy, record.id, change, commit.frontier, rival.value) {
            return Lost;
          }
          if settled.None? || !settled.value.committerKept {
            return Refused;
          }
          return Accepted(change, commit.frontier, Branch(from.epoch + 1, settled.value.authenticator));
      }
    }

    method Adopt(record: Record, from: ClientState, baseline: Frontier, change: Change, frontier: Frontier,
                 next: Branch)
      requires Contiguously(View()) && Base(View()) <= record.epoch <= state.epoch
      modifies this
      ensures View() == MlsGroupModel.Adopt(protocol, old(View()), record, from, baseline, change, frontier, next)
    {
      witnesses := [];
      Take(record.epoch, AppliedEpoch(record.id, Some(from), baseline, frontier, change));
      state, resumable := Resume(resumable, ClientState(next.epoch, next.authenticator, 0));
      bound := frontier;
      removed := !protocol.active(next);
    }

    /** Takes a commit that its judgement accepts, or steps back when it is held. */
    method Advance(policy: Policy, record: Record, from: ClientState, baseline: Frontier, rival: Option<AppliedEpoch>)
      returns (outcome: Outcome)
      requires Valid() && Contested(View(), record)
      requires from == FromAt(View(), record) && baseline == BaselineAt(View(), record)
      requires rival == RivalAt(View(), record)
      modifies this
      ensures (View(), outcome) == MlsGroupModel.Advance(protocol, policy, old(View()), record, from, baseline, rival)
    {
      ghost var g := View();
      var judged := JudgeCommit(policy, record, from, baseline, rival);
      match judged {
        case Refused => return Rejected;
        case Lost => return Ignored(LostRace);
        case Held(known) =>
          HeldKnown(protocol, policy, g, record);
          assert View() == g.(witnesses := known);
          StepBack(policy);
          return Ignored(Withheld);
        case Accepted(change, frontier, next) =>
          Adopt(record, from, baseline, change, frontier, next);
          return if removed then Removed else Applied(next.epoch);
      }
    }

    /** Judges a rival from the state before the commit it contests; if it wins, what followed that goes. */
    method Replace(policy: Policy, record: Record, previous: AppliedEpoch,
                   before: ClientState) returns (outcome: Outcome)
      requires Valid() && Contested(View(), record) && record.epoch < state.epoch
      requires RivalAt(View(), record) == Some(previous) && FromAt(View(), record) == before
      modifies this
      ensures (View(), outcome) == MlsGroupModel.ApplyCommit(protocol, policy, old(View()), record)
    {
      ghost var g := View();
      ApplyIsAdvance(protocol, policy, g, record);
      outcome := Advance(policy, record, before, previous.baseline, Some(previous));
      if !outcome.Applied? {
        return;
      }
      TakenContiguous(protocol, policy, g, record);
      applied := DeleteFrom(applied, Base(g), record.epoch + 1);
      return Replaced(outcome.epoch, previous.commitId);
    }

    lemma {:induction false} TakenContiguous(protocol: Protocol, policy: Policy, g: Group, record: Record)
      requires Contested(g, record)
      requires MlsGroupModel.Advance(protocol, policy, g, record, FromAt(g, record), BaselineAt(g, record),
                                     RivalAt(g, record)).1.Applied?
      ensures var (g', outcome) := MlsGroupModel.Advance(protocol, policy, g, record, FromAt(g, record),
                                                         BaselineAt(g, record), RivalAt(g, record));
              Contiguous(g'.applied, Base(g)) && Base(g) <= record.epoch < Base(g) + |g'.applied|
    {
      var judged := JudgedAt(protocol, policy, g, record);
      var taken := EntryAt(g, record, judged.change, judged.frontier);
      SetPrefix(g, record.epoch, taken);
      TakeContiguous(Set(g.applied, record.epoch, taken), Base(g), record.epoch + 1 - RETAINED_EPOCHS);
    }

    /** Takes a published commit for its epoch, switches to it, or says why it does neither. */
    method ApplyCommit(policy: Policy, record: Record) returns (outcome: Outcome)
      requires Valid()
      modifies this
      ensures Valid()
      ensures (View(), outcome) == MlsGroupModel.ApplyCommit(protocol, policy, old(View()), record)
    {
      ApplyKeepsInv(protocol, policy, View(), record);
      if removed {
        return Removed;
      }
      var previous := Get(applied, record.epoch);
      GetContiguous(applied, Base(View()), record.epoch);
      var current := state.epoch;
      if record.epoch > current {
        return Gap(record.epoch, current);
      }
      if previous.Some? && previous.value.commitId == record.id {
        return Ignored(Duplicate);
      }
      if record.epoch == current {
        outcome := Advance(policy, record, state, bound, None);
        return;
      }
      if previous.None? || previous.value.before.None? {
        return Ignored(Stale);
      }
      outcome := Replace(policy, record, previous.value, previous.value.before.value);
    }

    /** Builds a commit and keeps it as pending; false when it is refused. */
    method BuildCommit(policy: Policy, draft: Bytes) returns (built: bool)
      requires Valid()
      modifies this`pending
      ensures Valid()
      ensures (View(), built) == MlsGroupModel.BuildCommit(protocol, policy, old(View()), draft)
    {
      StepKeepsInv(protocol, View(), BuildCall(policy, draft));
      if removed {
        return false;
      }
      var waiting := AnyWithheld(policy, witnesses);
      if waiting {
        return false;
      }
      var made := protocol.build(state.At(), draft);
      if made.None? || !policy.allows(made.value.change, bound, policy.frontier) {
        return false;
      }
      pending := Some(PendingCommit(state, made.value.change, state.epoch, policy.frontier,
                                    ClientState(state.epoch + 1, made.value.authenticator, 0)));
      return true;
    }

    /** Adopts the pending commit, or only drops it once the group left its epoch and branch. */
    method Confirm(commitId: CommitId) returns (outcome: Outcome)
      requires Valid()
      modifies this
      ensures Valid()
      ensures (View(), outcome) == MlsGroupModel.Confirm(old(View()), commitId)
    {
      ConfirmKeepsInv(protocol, View(), commitId);
      if pending.None? {
        return Rejected;
      }
      var made := pending.value;
      pending := None;
      if !SameEpoch(state, made.before) {
        return Rejected;
      }
      SameEpochIsSameBranch(state, made.before);
      witnesses := [];
      Take(made.epoch, AppliedEpoch(commitId, Some(made.before), bound, made.frontier, made.change));
      state := made.state;
      bound := made.frontier;
      return Applied(state.epoch);
    }

    method Abandon()
      requires Valid()
      modifies this`pending
      ensures Valid() && View() == old(View()).(pending := None)
    {
      PendingAloneKeeps(protocol, View(), View().(pending := None));
      pending := None;
    }

    /** An application message sent or opened moves the ratchets of the current epoch. */
    method MoveRatchets(generation: nat)
      requires Valid()
      modifies this`state
      ensures Valid() && View() == Step(protocol, old(View()), MessageCall(generation))
    {
      StepKeepsInv(protocol, View(), MessageCall(generation));
      state := state.(generation := generation);
    }
  }
}

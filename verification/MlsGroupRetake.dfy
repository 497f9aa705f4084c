/** Taking the commits a group stepped back from again ends in exactly the states it left. */
module MlsGroupRetake {
  import opened Prelude
  import opened MlsGroupModel
  import opened MlsGroupInvariant
  import opened MlsGroupSafety

  /** Delivers published commits in turn, under one policy. */
  function Deliver(protocol: Protocol, policy: Policy, g: Group, records: seq<Record>): (Group, seq<Outcome>)
    decreases |records|
  {
    if records == [] then (g, [])
    else
      var (next, outcome) := ApplyCommit(protocol, policy, g, records[0]);
      var (end, outcomes) := Deliver(protocol, policy, next, records[1..]);
      (end, [outcome] + outcomes)
  }

  // ----- the records behind a chain ----------------------------------------------------------

  /** The records taken, by the epoch they were made in: all a run ever published to the group. */
  type History = map<nat, Record>

  /** Processing `record` in branch `from` makes the change and binds the frontier `entry` tells, and leads to `to`. */
  ghost predicate Leads(protocol: Protocol, from: Branch, record: Record, entry: AppliedEpoch, to: Branch) {
    && record.id == entry.commitId
    && record.epoch == from.epoch
    && to.epoch == from.epoch + 1
    && protocol.active(to)
    && protocol.readCommit(record.bytes).Some?
    && var commit := protocol.readCommit(record.bytes).value;
       && commit.epoch == record.epoch
       && commit.frontier == entry.frontier
       && protocol.process(from, commit) == Judged(entry.change, Some(Settled(to.authenticator, true)))
  }

  /** The branch the commit at place `i` led to. */
  ghost function BranchAfter(g: Group, i: nat): Branch
    requires i < |g.applied| && KeptSuffix(g) && g.applied[i].1.before.Some?
  {
    if i + 1 < |g.applied| then g.applied[i + 1].1.before.value.At() else g.state.At()
  }

  /** The history tells the commit at place `i`, if another member made it and its state is kept. */
  ghost predicate ToldAt(protocol: Protocol, g: Group, h: History, i: nat)
    requires i < |g.applied| && KeptSuffix(g)
  {
    g.applied[i].1.before.Some? && !Own(g, i) ==>
      && g.applied[i].0 in h
      && Leads(protocol, g.applied[i].1.before.value.At(), h[g.applied[i].0], g.applied[i].1, BranchAfter(g, i))
  }

  ghost predicate Told(protocol: Protocol, g: Group, h: History) {
    KeptSuffix(g) && forall i :: 0 <= i < |g.applied| ==> ToldAt(protocol, g, h, i)
  }

  ghost function NextHistory(h: History, call: Call, outcome: Outcome): History {
    if call.ApplyCall? && (outcome.Applied? || outcome.Replaced?) then h[call.record.epoch := call.record] else h
  }

  ghost function HistoryOf(protocol: Protocol, g: Group, h: History, calls: seq<Call>): History
    decreases |calls|
  {
    if calls == [] then h
    else
      var outcome := if calls[0].ApplyCall?
                     then ApplyCommit(protocol, calls[0].policy, g, calls[0].record).1 else Rejected;
      HistoryOf(protocol, Step(protocol, g, calls[0]), NextHistory(h, calls[0], outcome), calls[1..])
  }

  lemma {:induction false} AcceptedLeads(protocol: Protocol, policy: Policy, g: Group, record: Record)
    requires Inv(protocol, g) && Contested(g, record)
    requires JudgedAt(protocol, policy, g, record).Accepted?
    ensures var judged := JudgedAt(protocol, policy, g, record);
            protocol.active(judged.next) ==>
              Leads(protocol, FromAt(g, record).At(), record, EntryAt(g, record, judged.change, judged.frontier),
                    judged.next)
  {
  }

  lemma {:induction false} TookTold(protocol: Protocol, g: Group, h: History, k: nat, taken: AppliedEpoch, next: Branch,
                                    record: Record)
    requires Chained(protocol, g) && !g.removed && Told(protocol, g, h) && k <= |g.applied|
    requires forall i :: k <= i < |g.applied| ==> g.applied[i].1.before.Some?
    requires taken.before.Some?
    requires taken.before.value.At()
             == if k < |g.applied| then g.applied[k].1.before.value.At() else g.state.At()
    requires Leads(protocol, taken.before.value.At(), record, taken, next)
    requires record.epoch == Base(g) + k
    requires KeptSuffix(TookAt(g, k, taken, next))
    ensures Told(protocol, TookAt(g, k, taken, next), h[record.epoch := record])
  {
    var g' := TookAt(g, k, taken, next);
    var h' := h[record.epoch := record];
    ResumedBranch(g.resumable, ClientState(next.epoch, next.authenticator, 0));
    TookEntries(g, k, taken, next);
    forall i | 0 <= i < |g'.applied|
      ensures ToldAt(protocol, g', h', i)
    {
      if i < k && g'.applied[i].1.before.Some? && !Own(g', i) {
        assert g'.applied[i] == g.applied[i];
        assert ToldAt(protocol, g, h, i);
        assert g'.applied[i + 1].1.before.Some?;
        assert BranchAfter(g', i) == BranchAfter(g, i);
      }
    }
  }

  lemma {:induction false} PrefixTold(protocol: Protocol, g: Group, h: History, back: Group)
    requires Told(protocol, g, h) && KeptSuffix(back)
    requires back.owner == g.owner && back.applied <= g.applied
    requires back.state.At() == if |back.applied| < |g.applied| && g.applied[|back.applied|].1.before.Some?
                                then g.applied[|back.applied|].1.before.value.At() else g.state.At()
    ensures Told(protocol, back, h)
  {
    forall i | 0 <= i < |back.applied|
      ensures ToldAt(protocol, back, h, i)
    {
      assert back.applied[i] == g.applied[i];
      assert ToldAt(protocol, g, h, i);
      if back.applied[i].1.before.Some? {
        assert BranchAfter(back, i) == BranchAfter(g, i);
      }
    }
  }

  lemma {:induction false} CutTold(protocol: Protocol, policy: Policy, g: Group, h: History)
    requires Inv(protocol, g) && !g.removed && Told(protocol, g, h)
    ensures StepBack(policy, g).Some? && Told(protocol, StepBack(policy, g).value, h)
  {
    StepBackKeepsPrefix(protocol, policy, g);
    StepBackChained(protocol, policy, g);
    PrefixTold(protocol, g, h, StepBack(policy, g).value);
  }

  lemma {:induction false} WitnessesDoNotTell(protocol: Protocol, g: Group, h: History, g': Group)
    requires Told(protocol, g, h)
    requires g'.applied == g.applied && g'.state.At() == g.state.At() && g'.owner == g.owner
    ensures Told(protocol, g', h)
  {
    forall i | 0 <= i < |g'.applied|
      ensures ToldAt(protocol, g', h, i)
    {
      assert ToldAt(protocol, g, h, i);
      if g'.applied[i].1.before.Some? {
        assert BranchAfter(g', i) == BranchAfter(g, i);
      }
    }
  }

  lemma {:induction false} AcceptedTold(protocol: Protocol, g: Group, h: History, record: Record, change: Change,
                                        frontier: Frontier, next: Branch)
    requires Inv(protocol, g) && Told(protocol, g, h) && Contested(g, record)
    requires Leads(protocol, FromAt(g, record).At(), record, EntryAt(g, record, change, frontier), next)
    ensures Told(protocol, TookAt(g, record.epoch - Base(g), EntryAt(g, record, change, frontier), next),
                 h[record.epoch := record])
  {
    var k := record.epoch - Base(g);
    var taken := EntryAt(g, record, change, frontier);
    TookChained(protocol, g, k, taken, next);
    TookTold(protocol, g, h, k, taken, next, record);
  }

  lemma {:induction false} HeldTold(protocol: Protocol, policy: Policy, g: Group, h: History, record: Record)
    requires Inv(protocol, g) && Told(protocol, g, h) && Contested(g, record)
    requires JudgedAt(protocol, policy, g, record).Held?
    ensures var back := StepBack(policy, g.(witnesses := JudgedAt(protocol, policy, g, record).witnesses));
            back.Some? && Told(protocol, back.value, h)
  {
    HeldKnown(protocol, policy, g, record);
    var waiting := g.(witnesses := JudgedAt(protocol, policy, g, record).witnesses);
    WitnessesDoNotTell(protocol, g, h, waiting);
    CutTold(protocol, policy, waiting, h);
  }

  lemma {:induction false} FaresTold(protocol: Protocol, policy: Policy, g: Group, h: History, record: Record,
                                     judged: Judgement)
    requires Inv(protocol, g) && Told(protocol, g, h) && Contested(g, record)
    requires judged.Held? ==>
               var back := StepBack(policy, g.(witnesses := judged.witnesses));
               back.Some? && Told(protocol, back.value, h)
    requires judged.Accepted? && protocol.active(judged.next) ==>
               Leads(protocol, FromAt(g, record).At(), record, EntryAt(g, record, judged.change, judged.frontier),
                     judged.next)
    ensures var (g', outcome) := Fares(protocol, policy, g, record, judged);
            !g'.removed ==> Told(protocol, g', NextHistory(h, ApplyCall(policy, record), outcome))
  {
    if judged.Accepted? && protocol.active(judged.next) {
      AcceptedTold(protocol, g, h, record, judged.change, judged.frontier, judged.next);
    }
  }

  lemma {:induction false} ApplyTold(protocol: Protocol, policy: Policy, g: Group, h: History, record: Record)
    requires Inv(protocol, g) && !g.removed && Told(protocol, g, h)
    ensures var (g', outcome) := ApplyCommit(protocol, policy, g, record);
            !g'.removed ==> Told(protocol, g', NextHistory(h, ApplyCall(policy, record), outcome))
  {
    if !Contested(g, record) {
      UncontestedChangesNothing(protocol, policy, g, record);
    } else {
      ContestedShape(protocol, policy, g, record);
      var judged := JudgedAt(protocol, policy, g, record);
      if judged.Held? {
        HeldTold(protocol, policy, g, h, record);
      } else if judged.Accepted? {
        AcceptedLeads(protocol, policy, g, record);
      }
      FaresTold(protocol, policy, g, h, record, judged);
    }
  }

  lemma {:induction false} OwnTakenTold(protocol: Protocol, g: Group, h: History, taken: AppliedEpoch, g': Group)
    requires Contiguously(g) && Told(protocol, g, h) && KeptSuffix(g')
    requires ByOwner(g.owner, taken.change) && g'.owner == g.owner
    requires taken.before.Some? && taken.before.value.At() == g.state.At()
    requires g'.applied == TakenAt(g, |g.applied|, taken)
    ensures Told(protocol, g', h)
  {
    TookEntries(g, |g.applied|, taken, g.state.At());
    forall i | 0 <= i < |g'.applied|
      ensures ToldAt(protocol, g', h, i)
    {
      if i < |g.applied| && g'.applied[i].1.before.Some? {
        assert ToldAt(protocol, g, h, i);
        assert g'.applied[i] == g.applied[i];
        assert g'.applied[i + 1].1.before.Some?;
        assert BranchAfter(g', i) == BranchAfter(g, i);
      }
    }
  }

  lemma {:induction false} ConfirmTold(protocol: Protocol, g: Group, h: History, commitId: CommitId)
    requires Inv(protocol, g) && !g.removed && Told(protocol, g, h)
    ensures Told(protocol, Confirm(g, commitId).0, h)
  {
    var g' := Confirm(g, commitId).0;
    if g.pending.Some? && SameEpoch(g.state, g.pending.value.before) {
      var pending := g.pending.value;
      var taken := AppliedEpoch(commitId, Some(pending.before), g.bound, pending.frontier, pending.change);
      SameEpochIsSameBranch(g.state, pending.before);
      TakeShape(g, g.state.epoch, taken);
      OwnTaken(protocol, g, taken, g');
      OwnTakenTold(protocol, g, h, taken, g');
    } else {
      WitnessesDoNotTell(protocol, g, h, g');
    }
  }

  /** Over any run, the history tells every commit of another member whose state is still kept. */
  lemma {:induction false} RunTold(protocol: Protocol, g: Group, h: History, calls: seq<Call>)
    requires Sound(protocol, g.owner) && Inv(protocol, g)
    requires !g.removed ==> Told(protocol, g, h)
    ensures var end := Run(protocol, g, calls);
            !end.removed ==> Told(protocol, end, HistoryOf(protocol, g, h, calls))
    decreases |calls|
  {
    if calls != [] {
      var next := Step(protocol, g, calls[0]);
      StepKeepsInv(protocol, g, calls[0]);
      if g.removed {
        RemovedStays(protocol, g, calls);
      } else {
        var outcome := if calls[0].ApplyCall?
                       then ApplyCommit(protocol, calls[0].policy, g, calls[0].record).1 else Rejected;
        match calls[0] {
          case ApplyCall(policy, record) => ApplyTold(protocol, policy, g, h, record);
          case ConfirmCall(commitId) => ConfirmTold(protocol, g, h, commitId);
          case _ => WitnessesDoNotTell(protocol, g, h, next);
        }
        RunTold(protocol, next, NextHistory(h, calls[0], outcome), calls[1..]);
      }
    }
  }

  // ----- resuming ----------------------------------------------------------------------------

  /** With no two stashed states in one epoch, the state resumed is the one of that branch. */
  lemma {:induction false} ResumesTheOneLeft(left: seq<ClientState>, s: nat, state: ClientState)
    requires DistinctEpochs(left) && s < |left| && left[s].At() == state.At()
    ensures Resumed(left, state) == left[s]
  {
    SameEpochIsSameBranch(left[0], state);
    if s > 0 {
      assert left[0].epoch != left[s].epoch;
      assert left[1..][s - 1] == left[s];
      ResumesTheOneLeft(left[1..], s - 1, state);
    }
  }

  lemma {:induction false} BeyondAppended(left: seq<ClientState>, more: seq<ClientState>, epoch: nat)
    ensures Beyond(left + more, epoch) == Beyond(left, epoch) + Beyond(more, epoch)
  {
    if left == [] {
      assert left + more == more;
    } else {
      var rest := left[1..];
      BeyondAppended(rest, more, epoch);
      BeyondHead(left, left[0], rest, epoch);
      BeyondHead(left + more, left[0], rest + more, epoch);
    }
  }

  lemma {:induction false} BeyondHead(left: seq<ClientState>, head: ClientState, rest: seq<ClientState>, epoch: nat)
    requires left == [head] + rest
    ensures Beyond(left, epoch) == (if head.epoch > epoch then [head] else []) + Beyond(rest, epoch)
  {
  }

  lemma {:induction false} BeyondAll(left: seq<ClientState>, epoch: nat)
    requires forall s :: 0 <= s < |left| ==> left[s].epoch > epoch
    ensures Beyond(left, epoch) == left
  {
    if left != [] {
      BeyondAll(left[1..], epoch);
    }
  }

  /** The states past place `i`, latest first and then in order, as a step back leaves them. */
  ghost function LeftFrom(g: Group, i: nat): seq<ClientState>
    requires i <= |g.applied|
    requires forall j :: i <= j < |g.applied| ==> g.applied[j].1.before.Some?
  {
    if i == |g.applied| then [] else [g.state] + Befores(g.applied[i + 1..])
  }

  /** The group with its chain cut back to place `i` and every state it left stashed. */
  ghost function Stage(g: Group, i: nat, witnesses: seq<(CommitId, Witness)>): Group
    requires i <= |g.applied|
    requires forall j :: i <= j < |g.applied| ==> g.applied[j].1.before.Some?
  {
    g.(witnesses := witnesses,
       applied := g.applied[..i],
       state := if i < |g.applied| then g.applied[i].1.before.value else g.state,
       bound := if i < |g.applied| then g.applied[i].1.baseline else g.bound,
       resumable := g.resumable + LeftFrom(g, i))
  }

  lemma {:induction false} LeftBeyond(g: Group, i: nat)
    requires Contiguously(g) && i < |g.applied|
    requires forall j :: i <= j < |g.applied| ==>
               g.applied[j].1.before.Some? && g.applied[j].1.before.value.epoch == g.applied[j].0
    ensures Beyond(LeftFrom(g, i), g.applied[i].0 + 1) == LeftFrom(g, i + 1)
  {
    var epoch := g.applied[i].0 + 1;
    var rest := Befores(g.applied[i + 1..]);
    BeyondHead(LeftFrom(g, i), g.state, rest, epoch);
    if i + 1 < |g.applied| {
      var more := Befores(g.applied[i + 2..]);
      BeyondHead(rest, g.applied[i + 1].1.before.value, more, epoch);
      BeyondAll(more, epoch);
    } else {
      assert rest == [];
    }
  }

  lemma {:induction false} StageStash(protocol: Protocol, g: Group, i: nat)
    requires !g.removed && Chained(protocol, g) && i < |g.applied|
    requires forall j :: i <= j < |g.applied| ==> g.applied[j].1.before.Some? && !Own(g, j)
    ensures DistinctEpochs(g.resumable + LeftFrom(g, i))
    ensures Beyond(g.resumable + LeftFrom(g, i), g.applied[i].0 + 1) == g.resumable + LeftFrom(g, i + 1)
  {
    var epoch := g.applied[i].0 + 1;
    LeftBeyond(g, i);
    BeyondAppended(g.resumable, LeftFrom(g, i), epoch);
    assert !Own(g, |g.applied| - 1);
    BeyondAll(g.resumable, epoch);
    StageDistinct(protocol, g, i);
  }

  lemma {:induction false} StageDistinct(protocol: Protocol, g: Group, i: nat)
    requires !g.removed && Chained(protocol, g) && i < |g.applied|
    requires forall j :: i <= j < |g.applied| ==> g.applied[j].1.before.Some? && !Own(g, j)
    ensures DistinctEpochs(g.resumable + LeftFrom(g, i))
  {
  }

  lemma {:induction false} RetakeOneAt(protocol: Protocol, policy: Policy, g: Group, i: nat, at: Group, record: Record,
                                       end: Group)
    requires i < |g.applied| && KeptSuffix(g) && g.applied[i].1.before.Some?
    requires Leads(protocol, g.applied[i].1.before.value.At(), record, g.applied[i].1, BranchAfter(g, i))
    requires forall c, f :: !policy.withheld(c, f)
    requires Permits(policy, g.applied[i].1.change, g.applied[i].1.frontier, g.applied[i].1.baseline)
    requires Contested(at, record) && record.epoch == at.state.epoch && |at.applied| == i
    requires at.state == g.applied[i].1.before.value && at.bound == g.applied[i].1.baseline
    requires TookAt(at, i, g.applied[i].1, BranchAfter(g, i)) == end
    ensures ApplyCommit(protocol, policy, at, record) == (end, Applied(record.epoch + 1))
  {
    TakenAtEnd(protocol, policy, at, record, g.applied[i].1, BranchAfter(g, i), end);
  }

  /** Taking one commit again resumes the state left after it, and stashes one state less. */
  lemma {:induction false} RetakeOne(protocol: Protocol, policy: Policy, g: Group, i: nat,
                                     witnesses: seq<(CommitId, Witness)>, record: Record)
    requires !g.removed && Inv(protocol, g) && i < |g.applied|
    requires forall j :: i <= j < |g.applied| ==> g.applied[j].1.before.Some? && !Own(g, j)
    requires Leads(protocol, g.applied[i].1.before.value.At(), record, g.applied[i].1, BranchAfter(g, i))
    requires forall c, f :: !policy.withheld(c, f)
    requires Permits(policy, g.applied[i].1.change, g.applied[i].1.frontier, g.applied[i].1.baseline)
    ensures ApplyCommit(protocol, policy, Stage(g, i, witnesses), record)
            == (Stage(g, i + 1, []), Applied(record.epoch + 1))
  {
    RetakeTook(protocol, g, i, witnesses);
    RetakeOneAt(protocol, policy, g, i, Stage(g, i, witnesses), record, Stage(g, i + 1, []));
  }

  /** A record judged as `entry` at the end of a chain is taken there. */
  lemma {:induction false} TakenAtEnd(protocol: Protocol, policy: Policy, at: Group, record: Record,
                                      entry: AppliedEpoch, next: Branch, end: Group)
    requires Contested(at, record) && record.epoch == at.state.epoch && protocol.active(next)
    requires JudgedAt(protocol, policy, at, record) == Accepted(entry.change, entry.frontier, next)
    requires EntryAt(at, record, entry.change, entry.frontier) == entry
    requires TookAt(at, |at.applied|, entry, next) == end
    ensures ApplyCommit(protocol, policy, at, record) == (end, Applied(next.epoch))
  {
    ContestedShape(protocol, policy, at, record);
  }

  lemma {:induction false} RetakeResumes(protocol: Protocol, g: Group, i: nat)
    requires !g.removed && Inv(protocol, g) && i < |g.applied|
    requires forall j :: i <= j < |g.applied| ==> g.applied[j].1.before.Some? && !Own(g, j)
    ensures var next := BranchAfter(g, i);
            Resumed(g.resumable + LeftFrom(g, i), ClientState(next.epoch, next.authenticator, 0))
            == if i + 1 < |g.applied| then g.applied[i + 1].1.before.value else g.state
  {
    var next := BranchAfter(g, i);
    StageDistinct(protocol, g, i);
    var left := g.resumable + LeftFrom(g, i);
    var s := if i + 1 < |g.applied| then |g.resumable| + 1 else |g.resumable|;
    assert left[s] == if i + 1 < |g.applied| then g.applied[i + 1].1.before.value else g.state;
    ResumesTheOneLeft(left, s, ClientState(next.epoch, next.authenticator, 0));
  }

  lemma {:induction false} RetakeTook(protocol: Protocol, g: Group, i: nat, witnesses: seq<(CommitId, Witness)>)
    requires !g.removed && Inv(protocol, g) && i < |g.applied|
    requires forall j :: i <= j < |g.applied| ==> g.applied[j].1.before.Some? && !Own(g, j)
    ensures Contiguously(Stage(g, i, witnesses))
    ensures TookAt(Stage(g, i, witnesses), i, g.applied[i].1, BranchAfter(g, i)) == Stage(g, i + 1, [])
  {
    StageStash(protocol, g, i);
    RetakeResumes(protocol, g, i);
    StageTook(g, i, witnesses);
  }

  lemma {:induction false} StageTook(g: Group, i: nat, witnesses: seq<(CommitId, Witness)>)
    requires Contiguously(g) && BoundInTurn(g) && KeptSuffix(g) && i < |g.applied|
    requires forall j :: i <= j < |g.applied| ==>
               g.applied[j].1.before.Some? && g.applied[j].1.before.value.epoch == g.applied[j].0
    requires Beyond(g.resumable + LeftFrom(g, i), g.applied[i].0 + 1) == g.resumable + LeftFrom(g, i + 1)
    requires var next := BranchAfter(g, i);
             Resumed(g.resumable + LeftFrom(g, i), ClientState(next.epoch, next.authenticator, 0))
             == if i + 1 < |g.applied| then g.applied[i + 1].1.before.value else g.state
    requires DropStates(g.applied[..i + 1], Base(g) + i + 1 - RETAINED_EPOCHS) == g.applied[..i + 1]
    ensures Contiguously(Stage(g, i, witnesses))
    ensures TookAt(Stage(g, i, witnesses), i, g.applied[i].1, BranchAfter(g, i)) == Stage(g, i + 1, [])
  {
    assert i + 1 < |g.applied| ==> StepsFromLast(g, i + 1);
  }

  /** The records the history tells from place `i` on. */
  ghost function RecordsFrom(g: Group, h: History, i: nat): seq<Record>
    requires i <= |g.applied|
    requires forall j :: i <= j < |g.applied| ==> g.applied[j].0 in h
    decreases |g.applied| - i
  {
    if i == |g.applied| then [] else [h[g.applied[i].0]] + RecordsFrom(g, h, i + 1)
  }

  lemma {:induction false} AllToldIn(protocol: Protocol, g: Group, h: History, i: nat)
    requires Told(protocol, g, h)
    requires forall j :: i <= j < |g.applied| ==> g.applied[j].1.before.Some? && !Own(g, j)
    ensures forall j :: i <= j < |g.applied| ==> g.applied[j].0 in h
  {
    forall j | i <= j < |g.applied|
      ensures g.applied[j].0 in h
    {
      assert ToldAt(protocol, g, h, j);
    }
  }

  lemma {:induction false} RetakeFrom(protocol: Protocol, policy: Policy, g: Group, h: History, i: nat,
                                      witnesses: seq<(CommitId, Witness)>)
    requires !g.removed && Inv(protocol, g) && Told(protocol, g, h) && i < |g.applied|
    requires forall j :: i <= j < |g.applied| ==> g.applied[j].1.before.Some? && !Own(g, j)
    requires forall c, f :: !policy.withheld(c, f)
    requires forall j :: i <= j < |g.applied| ==>
               Permits(policy, g.applied[j].1.change, g.applied[j].1.frontier, g.applied[j].1.baseline)
    ensures forall j :: i <= j < |g.applied| ==> g.applied[j].0 in h
    ensures Deliver(protocol, policy, Stage(g, i, witnesses), RecordsFrom(g, h, i)).0 == g.(witnesses := [])
    ensures forall o :: o in Deliver(protocol, policy, Stage(g, i, witnesses), RecordsFrom(g, h, i)).1 ==> o.Applied?
    decreases |g.applied| - i
  {
    AllToldIn(protocol, g, h, i);
    assert ToldAt(protocol, g, h, i);
    var record := h[g.applied[i].0];
    var records := RecordsFrom(g, h, i);
    assert records[0] == record && records[1..] == RecordsFrom(g, h, i + 1);
    RetakeOne(protocol, policy, g, i, witnesses, record);
    if i + 1 < |g.applied| {
      RetakeFrom(protocol, policy, g, h, i + 1, []);
    }
  }

  /**
   * Retaking undoes stepping back. When a withheld commit makes a group step back under one
   * policy, and under another, which withholds nothing and still permits them, the commits
   * dropped are delivered again in order, then each is taken and the group is what it was:
   * the same state down to its ratchets, chain, kept states, frontier and stash.
   */
  lemma {:induction false} RetakeUndoesStepBack(protocol: Protocol, policy: Policy, g: Group, h: History,
                                                withheld: Record, later: Policy)
    requires !g.removed && Inv(protocol, g) && Told(protocol, g, h)
    requires ApplyCommit(protocol, policy, g, withheld).1 == Ignored(Withheld)
    requires forall c, f :: !later.withheld(c, f)
    requires forall j :: |ApplyCommit(protocol, policy, g, withheld).0.applied| <= j < |g.applied| ==>
               Permits(later, g.applied[j].1.change, g.applied[j].1.frontier, g.applied[j].1.baseline)
    ensures var back := ApplyCommit(protocol, policy, g, withheld).0;
            var kept := |back.applied|;
            && kept <= |g.applied|
            && (forall j :: kept <= j < |g.applied| ==> g.applied[j].0 in h)
            && var (end, outcomes) := Deliver(protocol, later, back, RecordsFrom(g, h, kept));
               && (forall o :: o in outcomes ==> o.Applied?)
               && end.(witnesses := []) == g.(witnesses := [])
               && (kept < |g.applied| ==> end.witnesses == [])
  {
    var waiting, place := WithheldStage(protocol, policy, g, withheld);
    if place < |g.applied| {
      assert forall j :: place <= j < |g.applied| ==> !Own(g, j);
      RetakeFrom(protocol, later, g, h, place, waiting);
    }
  }

  /** A withheld commit cuts the chain back to a place past every own commit, with all it left stashed. */
  lemma {:induction false} WithheldStage(protocol: Protocol, policy: Policy, g: Group, withheld: Record)
    returns (known: seq<(CommitId, Witness)>, place: nat)
    requires !g.removed && Inv(protocol, g)
    requires ApplyCommit(protocol, policy, g, withheld).1 == Ignored(Withheld)
    ensures place <= |g.applied|
    ensures forall j :: place <= j < |g.applied| ==> g.applied[j].1.before.Some? && !Own(g, j)
    ensures ApplyCommit(protocol, policy, g, withheld).0
            == if place == |g.applied| then g.(witnesses := known) else Stage(g, place, known)
  {
    if !Contested(g, withheld) {
      UncontestedChangesNothing(protocol, policy, g, withheld);
      assert false;
    } else {
      ContestedShape(protocol, policy, g, withheld);
      known := JudgedAt(protocol, policy, g, withheld).witnesses;
      HeldKnown(protocol, policy, g, withheld);
      place := StepBackStage(protocol, policy, g, known);
    }
  }

  lemma {:induction false} StepBackStage(protocol: Protocol, policy: Policy, g: Group,
                                         known: seq<(CommitId, Witness)>) returns (place: nat)
    requires !g.removed && Inv(protocol, g.(witnesses := known))
    ensures place <= |g.applied|
    ensures forall j :: place <= j < |g.applied| ==> g.applied[j].1.before.Some? && !Own(g, j)
    ensures StepBack(policy, g.(witnesses := known))
            == Some(if place == |g.applied| then g.(witnesses := known) else Stage(g, place, known))
  {
    var waiting := g.(witnesses := known);
    StepBackCuts(protocol, policy, waiting);
    PlaceIsFirstDroppable(protocol, policy, waiting);
    place := StepBackPlace(policy, waiting);
    if place < |g.applied| {
      forall j | place <= j < |g.applied|
        ensures g.applied[j].1.before.Some? && !Own(g, j)
      {
        assert !Own(waiting, j);
      }
      assert g.resumable + [g.state] + Befores(g.applied[place + 1..]) == g.resumable + LeftFrom(g, place);
    }
  }

  /** So it is in every group a run of public calls can reach. */
  lemma {:induction false} ReachableRetake(protocol: Protocol, owner: LeafOwner, state: ClientState, bound: Frontier,
                                           calls: seq<Call>, policy: Policy, withheld: Record, later: Policy)
    requires Sound(protocol, owner)
    requires var g := Run(protocol, Start(protocol, owner, state, bound), calls);
             && ApplyCommit(protocol, policy, g, withheld).1 == Ignored(Withheld)
             && forall j :: |ApplyCommit(protocol, policy, g, withheld).0.applied| <= j < |g.applied| ==>
                  Permits(later, g.applied[j].1.change, g.applied[j].1.frontier, g.applied[j].1.baseline)
    requires forall c, f :: !later.withheld(c, f)
    ensures var start := Start(protocol, owner, state, bound);
            var g := Run(protocol, start, calls);
            var h := HistoryOf(protocol, start, map[], calls);
            var back := ApplyCommit(protocol, policy, g, withheld).0;
            && |back.applied| <= |g.applied|
            && (forall j :: |back.applied| <= j < |g.applied| ==> g.applied[j].0 in h)
            && Deliver(protocol, later, back, RecordsFrom(g, h, |back.applied|)).0.(witnesses := [])
              == g.(witnesses := [])
  {
    var start := Start(protocol, owner, state, bound);
    ReachableInv(protocol, owner, state, bound, calls);
    RunTold(protocol, start, map[], calls);
    RetakeUndoesStepBack(protocol, policy, Run(protocol, start, calls), HistoryOf(protocol, start, map[], calls),
                         withheld, later);
  }
}

/** What every reachable group keeps, over any run of public calls under any changing policy. */
module MlsGroupInvariant {
  import opened Prelude
  import opened OrderedMaps
  import opened MlsGroupModel

  /** The epoch the first commit still recorded left. */
  function Base(g: Group): int {
    g.state.epoch - |g.applied|
  }

  /** The commits taken leave contiguous ascending epochs that end just below the current one. */
  ghost predicate Contiguously(g: Group) {
    |g.applied| <= g.state.epoch && Contiguous(g.applied, Base(g))
  }

  /** The commit at place `i` steps from the frontier the one before it bound. */
  ghost predicate StepsFromLast(g: Group, i: int)
    requires 0 < i < |g.applied|
  {
    g.applied[i].1.baseline == g.applied[i - 1].1.frontier
  }

  /** Each commit steps from the frontier the one before it bound; the group binds the last. */
  ghost predicate BoundInTurn(g: Group) {
    && (forall i :: 0 < i < |g.applied| ==> StepsFromLast(g, i))
    && (g.applied != [] ==> g.bound == g.applied[|g.applied| - 1].1.frontier)
  }

  /** A kept state is at its own epoch, in a branch that holds this device. */
  ghost predicate KeptInPlace(protocol: Protocol, g: Group) {
    forall i :: 0 <= i < |g.applied| && g.applied[i].1.before.Some? ==>
      var before := g.applied[i].1.before.value;
      before.epoch == g.applied[i].0 && protocol.active(before.At())
  }

  /** The commits still holding the state before them are a suffix of at most `RETAINED_EPOCHS`. */
  ghost predicate KeptSuffix(g: Group) {
    forall i :: 0 <= i < |g.applied| && g.applied[i].1.before.Some? ==>
      && |g.applied| - i <= RETAINED_EPOCHS
      && forall j :: i <= j < |g.applied| ==> g.applied[j].1.before.Some?
  }

  /** No commit at or past a witness has lost the state before it. */
  ghost predicate WitnessesCovered(g: Group) {
    forall w, i :: 0 <= w < |g.witnesses| && 0 <= i < |g.applied| && g.applied[i].0 >= g.witnesses[w].1.epoch ==>
      g.applied[i].1.before.Some?
  }

  ghost predicate DistinctEpochs(states: seq<ClientState>) {
    forall i, j :: 0 <= i < j < |states| ==> states[i].epoch != states[j].epoch
  }

  /** No two stashed states share an epoch, and each lies past every commit another member made. */
  ghost predicate StashBeyond(g: Group) {
    && DistinctEpochs(g.resumable)
    && forall i, s :: 0 <= i < |g.applied| && 0 <= s < |g.resumable| && !ByOwner(g.owner, g.applied[i].1.change) ==>
         g.resumable[s].epoch > g.applied[i].0 + 1
  }

  ghost predicate Chained(protocol: Protocol, g: Group) {
    && Contiguously(g)
    && BoundInTurn(g)
    && KeptInPlace(protocol, g)
    && KeptSuffix(g)
    && WitnessesCovered(g)
    && StashBeyond(g)
  }

  ghost predicate PendingBuilt(protocol: Protocol, owner: LeafOwner, pending: PendingCommit) {
    && pending.before.epoch == pending.epoch
    && pending.state.epoch == pending.epoch + 1
    && ByOwner(owner, pending.change)
    && protocol.active(pending.before.At())
    && protocol.active(pending.state.At())
  }

  ghost predicate Inv(protocol: Protocol, g: Group) {
    && g.removed == !protocol.active(g.state.At())
    && (g.pending.Some? ==> PendingBuilt(protocol, g.owner, g.pending.value))
    && (!g.removed ==> Chained(protocol, g))
  }

  // ----- the stash ---------------------------------------------------------------------------

  lemma {:induction false} BeyondKeeps(left: seq<ClientState>, epoch: nat)
    requires DistinctEpochs(left)
    ensures DistinctEpochs(Beyond(left, epoch))
    ensures forall s :: s in Beyond(left, epoch) <==> s in left && s.epoch > epoch
  {
    if left != [] {
      assert DistinctEpochs(left[1..]);
      BeyondKeeps(left[1..], epoch);
      assert left == [left[0]] + left[1..];
    }
  }

  lemma {:induction false} ResumedBranch(left: seq<ClientState>, state: ClientState)
    ensures Resumed(left, state).At() == state.At()
  {
    if left != [] {
      SameEpochIsSameBranch(left[0], state);
      ResumedBranch(left[1..], state);
    }
  }

  /** The states kept before the commits of a sequence that has them all. */
  function Befores(applied: seq<(nat, AppliedEpoch)>): seq<ClientState>
    requires forall i :: 0 <= i < |applied| ==> applied[i].1.before.Some?
  {
    seq(|applied|, i requires 0 <= i < |applied| => applied[i].1.before.value)
  }

  lemma {:induction false} StatesBeyondContiguous(applied: seq<(nat, AppliedEpoch)>, base: nat, from: nat)
    requires Contiguous(applied, base)
    requires forall i :: 0 <= i < |applied| && applied[i].0 > from ==> applied[i].1.before.Some?
    ensures var skip := if from < base then 0 else if from - base < |applied| then from - base + 1 else |applied|;
            StatesBeyond(applied, from) == Some(Befores(applied[skip..]))
  {
    if applied != [] {
      ContiguousTail(applied, base);
      assert forall i :: 0 <= i < |applied[1..]| ==> applied[1..][i] == applied[i + 1];
      StatesBeyondContiguous(applied[1..], base + 1, from);
      if from >= base {
        var skip := if from - base < |applied| then from - base + 1 else |applied|;
        assert applied[skip..] == applied[1..][skip - 1..];
      } else {
        assert applied[0..] == applied && applied[1..][0..] == applied[1..];
        assert Befores(applied) == [applied[0].1.before.value] + Befores(applied[1..]);
      }
    }
  }

  // ----- witnesses ---------------------------------------------------------------------------

  lemma {:induction false} SetMembers<K, V>(m: seq<(K, V)>, key: K, value: V)
    ensures forall e :: e in Set(m, key, value) ==> e in m || e == (key, value)
    ensures (key, value) in Set(m, key, value)
  {
    if m != [] {
      SetMembers(m[1..], key, value);
    }
  }

  lemma {:induction false} SetKeepsWaiting(policy: Policy, witnesses: seq<(CommitId, Witness)>, id: CommitId,
                                           w: Witness)
    requires policy.withheld(w.committer, w.frontier)
    ensures Waiting(policy, Set(witnesses, id, w))
  {
    SetMembers(witnesses, id, w);
    var known := Set(witnesses, id, w);
    var i :| 0 <= i < |known| && known[i] == (id, w);
  }

  lemma {:induction false} EarliestIsEarliest(policy: Policy, witnesses: seq<(CommitId, Witness)>, latest: nat)
    ensures var since := EarliestWithheld(policy, witnesses, latest);
            && since <= latest
            && (forall w :: 0 <= w < |witnesses| && policy.withheld(witnesses[w].1.committer, witnesses[w].1.frontier)
                  ==> since <= witnesses[w].1.epoch)
            && (since == latest
                || exists w :: 0 <= w < |witnesses|
                               && policy.withheld(witnesses[w].1.committer, witnesses[w].1.frontier)
                               && since == witnesses[w].1.epoch)
  {
    if witnesses != [] {
      var w := witnesses[0].1;
      var earliest := if policy.withheld(w.committer, w.frontier) && w.epoch < latest then w.epoch else latest;
      EarliestIsEarliest(policy, witnesses[1..], earliest);
      var since := EarliestWithheld(policy, witnesses, latest);
      forall k | 0 <= k < |witnesses| && policy.withheld(witnesses[k].1.committer, witnesses[k].1.frontier)
        ensures since <= witnesses[k].1.epoch
      {
        if k > 0 {
          assert witnesses[1..][k - 1] == witnesses[k];
        }
      }
      if since != earliest {
        var k :| 0 <= k < |witnesses[1..]|
                 && policy.withheld(witnesses[1..][k].1.committer, witnesses[1..][k].1.frontier)
                 && since == witnesses[1..][k].1.epoch;
        assert witnesses[k + 1] == witnesses[1..][k];
      }
    }
  }

  // ----- stepping back -----------------------------------------------------------------------

  lemma {:induction false} FirstAddIsFirst(applied: seq<(nat, AppliedEpoch)>, since: nat, i: nat)
    requires i <= |applied|
    ensures var place := FirstAdd(applied, since, i);
            && (forall k :: i <= k < place ==> applied[k].0 < since || applied[k].1.change.added == [])
            && (place < |applied| ==> applied[place].0 >= since && applied[place].1.change.added != [])
    decreases |applied| - i
  {
    if i < |applied| && FirstAdd(applied, since, i) != i {
      FirstAddIsFirst(applied, since, i + 1);
    }
  }

  lemma {:induction false} AfterOwnIsAfterOwn(owner: LeafOwner, applied: seq<(nat, AppliedEpoch)>)
    ensures var next := AfterOwn(owner, applied);
            && (next > 0 ==> ByOwner(owner, applied[next - 1].1.change))
            && (forall i :: next <= i < |applied| ==> !ByOwner(owner, applied[i].1.change))
  {
    if applied != [] && !ByOwner(owner, applied[|applied| - 1].1.change) {
      AfterOwnIsAfterOwn(owner, applied[..|applied| - 1]);
    }
  }

  /** The lookups of a step back never reject, and its result is the chain cut at `place`. */
  lemma {:induction false} StepBackCuts(protocol: Protocol, policy: Policy, g: Group)
    requires !g.removed && Chained(protocol, g)
    ensures var place := StepBackPlace(policy, g);
            && StepBack(policy, g).Some?
            && (place < |g.applied| ==>
                  && (forall i :: place <= i < |g.applied| ==> g.applied[i].1.before.Some?)
                  && StepBack(policy, g).value
                     == g.(resumable := g.resumable + [g.state] + Befores(g.applied[place + 1..]),
                           state := g.applied[place].1.before.value,
                           bound := g.applied[place].1.baseline,
                           applied := g.applied[..place]))
  {
    var place := StepBackPlace(policy, g);
    var since := EarliestWithheld(policy, g.witnesses, g.state.epoch);
    if place < |g.applied| {
      EarliestIsEarliest(policy, g.witnesses, g.state.epoch);
      FirstAddIsFirst(g.applied, since, AfterOwn(g.owner, g.applied));
      var from := g.applied[place].0;
      assert since < g.state.epoch;
      StatesBeyondContiguous(g.applied, Base(g), from);
      BelowContiguous(g.applied, Base(g), from);
    }
  }

  lemma {:induction false} CutChained(protocol: Protocol, g: Group, k: nat)
    requires !g.removed && Chained(protocol, g) && k < |g.applied|
    requires forall i :: k <= i < |g.applied| ==>
               g.applied[i].1.before.Some? && !ByOwner(g.owner, g.applied[i].1.change)
    ensures var back := g.(resumable := g.resumable + [g.state] + Befores(g.applied[k + 1..]),
                           state := g.applied[k].1.before.value,
                           bound := g.applied[k].1.baseline,
                           applied := g.applied[..k]);
            Chained(protocol, back) && Base(back) == Base(g)
  {
    var left := Befores(g.applied[k + 1..]);
    var back := g.(resumable := g.resumable + [g.state] + left,
                   state := g.applied[k].1.before.value,
                   bound := g.applied[k].1.baseline,
                   applied := g.applied[..k]);
    assert Contiguously(back);
    CutBound(g, back, k);
    assert forall s :: 0 <= s < |left| ==> left[s].epoch == g.applied[k].0 + 1 + s by {
      forall s | 0 <= s < |left| ensures left[s].epoch == g.applied[k].0 + 1 + s {
        assert g.applied[k + 1..][s] == g.applied[k + 1 + s];
      }
    }
  }

  lemma {:induction false} CutBound(g: Group, back: Group, k: nat)
    requires BoundInTurn(g) && k < |g.applied|
    requires back.applied == g.applied[..k] && back.bound == g.applied[k].1.baseline
    ensures BoundInTurn(back)
  {
    forall i | 0 < i < |back.applied|
      ensures StepsFromLast(back, i)
    {
      assert StepsFromLast(g, i);
    }
    if k > 0 {
      assert StepsFromLast(g, k);
    }
  }

  lemma {:induction false} StepBackChained(protocol: Protocol, policy: Policy, g: Group)
    requires !g.removed && Inv(protocol, g)
    ensures StepBack(policy, g).Some?
    ensures Inv(protocol, StepBack(policy, g).value) && !StepBack(policy, g).value.removed
  {
    StepBackCuts(protocol, policy, g);
    var place := StepBackPlace(policy, g);
    if place < |g.applied| {
      NotOwnFrom(policy, g, place);
      CutChained(protocol, g, place);
    }
  }

  lemma {:induction false} NotOwnFrom(policy: Policy, g: Group, place: nat)
    requires place == StepBackPlace(policy, g)
    ensures forall i :: place <= i < |g.applied| ==> !ByOwner(g.owner, g.applied[i].1.change)
  {
    AfterOwnIsAfterOwn(g.owner, g.applied);
  }

  // ----- taking a commit ---------------------------------------------------------------------

  /** The commits recorded once `taken` is taken at place `k` and nothing later is left. */
  function TakenAt(g: Group, k: nat, taken: AppliedEpoch): seq<(nat, AppliedEpoch)>
    requires Contiguously(g) && k <= |g.applied|
  {
    DropStates(g.applied[..k] + [(Base(g) + k, taken)], Base(g) + k + 1 - RETAINED_EPOCHS)
  }

  lemma {:induction false} SetPrefix(g: Group, epoch: nat, taken: AppliedEpoch)
    requires Contiguously(g) && Base(g) <= epoch <= g.state.epoch
    ensures var all := Set(g.applied, epoch, taken);
            var k := epoch - Base(g);
            && Contiguous(all, Base(g))
            && |all| == (if k < |g.applied| then |g.applied| else k + 1)
            && all[..k + 1] == g.applied[..k] + [(epoch, taken)]
  {
    SetContiguous(g.applied, Base(g), epoch, taken);
  }

  /** Taking for the current epoch appends; taking for an earlier one and dropping the later ones cuts there. */
  lemma {:induction false} TakeShape(g: Group, epoch: nat, taken: AppliedEpoch)
    requires Contiguously(g) && Base(g) <= epoch <= g.state.epoch
    ensures Below(Take(g.applied, epoch, taken), epoch + 1) == TakenAt(g, epoch - Base(g), taken)
    ensures epoch == g.state.epoch ==> Take(g.applied, epoch, taken) == TakenAt(g, epoch - Base(g), taken)
  {
    var k := epoch - Base(g);
    var oldest := epoch + 1 - RETAINED_EPOCHS;
    SetPrefix(g, epoch, taken);
    var all := Set(g.applied, epoch, taken);
    TakeContiguous(all, Base(g), oldest);
    BelowContiguous(DropStates(all, oldest), Base(g), epoch + 1);
    if epoch == g.state.epoch {
      assert all[..k + 1] == all;
    }
  }

  lemma {:induction false} TakeContiguous(applied: seq<(nat, AppliedEpoch)>, base: nat, oldest: int)
    requires Contiguous(applied, base)
    ensures Contiguous(DropStates(applied, oldest), base)
  {
  }

  /** The group that took `taken` at place `k` of its chain, which leads it to `next`. */
  function TookAt(g: Group, k: nat, taken: AppliedEpoch, next: Branch): Group
    requires Contiguously(g) && k <= |g.applied|
  {
    g.(witnesses := [],
       applied := TakenAt(g, k, taken),
       state := Resumed(g.resumable, ClientState(next.epoch, next.authenticator, 0)),
       resumable := Beyond(g.resumable, next.epoch),
       bound := taken.frontier)
  }

  lemma {:induction false} TookChained(protocol: Protocol, g: Group, k: nat, taken: AppliedEpoch, next: Branch)
    requires !g.removed && Chained(protocol, g) && k <= |g.applied|
    requires forall i :: k <= i < |g.applied| ==> g.applied[i].1.before.Some?
    requires taken.baseline == if k == |g.applied| then g.bound else g.applied[k].1.baseline
    requires taken.before.Some? && taken.before.value.epoch == Base(g) + k && protocol.active(taken.before.value.At())
    requires next.epoch == Base(g) + k + 1
    ensures var g' := TookAt(g, k, taken, next);
            && Chained(protocol, g') && g'.state.At() == next
            && |g'.applied| == k + 1 && Base(g') == Base(g)
  {
    var oldest := Base(g) + k + 1 - RETAINED_EPOCHS;
    var kept := g.applied[..k] + [(Base(g) + k, taken)];
    ResumedBranch(g.resumable, ClientState(next.epoch, next.authenticator, 0));
    TakeContiguous(kept, Base(g), oldest);
    TookKeeps(protocol, g, k, taken, next);
    TookBound(g, k, taken, next);
    TookStash(g, k, taken, next);
  }

  /** The entries of a chain that took `taken` at place `k`: the earlier ones may have lost their states. */
  lemma {:induction false} TookEntries(g: Group, k: nat, taken: AppliedEpoch, next: Branch)
    requires Contiguously(g) && k <= |g.applied|
    ensures var g' := TookAt(g, k, taken, next);
            && |g'.applied| == k + 1
            && (forall i :: 0 <= i <= k ==>
                  var entry := if i < k then g.applied[i].1 else taken;
                  && g'.applied[i].0 == Base(g) + i
                  && (g'.applied[i].1 == entry || g'.applied[i].1 == entry.(before := None)))
  {
  }

  lemma {:induction false} TookBound(g: Group, k: nat, taken: AppliedEpoch, next: Branch)
    requires Contiguously(g) && BoundInTurn(g) && k <= |g.applied|
    requires taken.baseline == if k == |g.applied| then g.bound else g.applied[k].1.baseline
    ensures BoundInTurn(TookAt(g, k, taken, next))
  {
    var g' := TookAt(g, k, taken, next);
    TookEntries(g, k, taken, next);
    forall i | 0 < i < |g'.applied|
      ensures StepsFromLast(g', i)
    {
      if i < |g.applied| {
        assert StepsFromLast(g, i);
      }
    }
  }

  lemma {:induction false} TookKeeps(protocol: Protocol, g: Group, k: nat, taken: AppliedEpoch, next: Branch)
    requires Contiguously(g) && KeptInPlace(protocol, g) && KeptSuffix(g) && k <= |g.applied|
    requires k < |g.applied| ==> g.applied[k].1.before.Some?
    requires taken.before.Some? && taken.before.value.epoch == Base(g) + k && protocol.active(taken.before.value.At())
    ensures KeptInPlace(protocol, TookAt(g, k, taken, next)) && KeptSuffix(TookAt(g, k, taken, next))
  {
    var g' := TookAt(g, k, taken, next);
    forall i | 0 <= i < |g'.applied| && g'.applied[i].1.before.Some?
      ensures |g'.applied| - i <= RETAINED_EPOCHS
      ensures forall j :: i <= j < |g'.applied| ==> g'.applied[j].1.before.Some?
    {
      assert g'.applied[i].0 == Base(g) + i;
    }
  }

  lemma {:induction false} TookStash(g: Group, k: nat, taken: AppliedEpoch, next: Branch)
    requires Contiguously(g) && StashBeyond(g) && k <= |g.applied|
    requires next.epoch == Base(g) + k + 1
    ensures StashBeyond(TookAt(g, k, taken, next))
  {
    var g' := TookAt(g, k, taken, next);
    BeyondKeeps(g.resumable, next.epoch);
    assert forall s :: 0 <= s < |g'.resumable| ==> g'.resumable[s] in g'.resumable;
    assert forall i :: 0 <= i < |g'.applied| ==> g'.applied[i].0 <= Base(g) + k;
  }

  // ----- applying a commit -------------------------------------------------------------------

  /** The record is put to the judgement: its epoch is still open to it. */
  ghost predicate Contested(g: Group, record: Record) {
    && !g.removed
    && Contiguously(g)
    && Base(g) <= record.epoch <= g.state.epoch
    && (record.epoch < g.state.epoch ==>
          var previous := g.applied[record.epoch - Base(g)].1;
          previous.before.Some? && previous.commitId != record.id)
  }

  /** The state, baseline and rival a contested record is judged against. */
  ghost function FromAt(g: Group, record: Record): ClientState
    requires Contested(g, record)
  {
    if record.epoch == g.state.epoch then g.state else g.applied[record.epoch - Base(g)].1.before.value
  }

  ghost function BaselineAt(g: Group, record: Record): Frontier
    requires Contested(g, record)
  {
    if record.epoch == g.state.epoch then g.bound else g.applied[record.epoch - Base(g)].1.baseline
  }

  ghost function RivalAt(g: Group, record: Record): Option<AppliedEpoch>
    requires Contested(g, record)
  {
    if record.epoch == g.state.epoch then None else Some(g.applied[record.epoch - Base(g)].1)
  }

  ghost function JudgedAt(protocol: Protocol, policy: Policy, g: Group, record: Record): Judgement
    requires Contested(g, record)
  {
    Judge(protocol, policy, g.witnesses, record, FromAt(g, record), BaselineAt(g, record), RivalAt(g, record))
  }

  ghost function EntryAt(g: Group, record: Record, change: Change, frontier: Frontier): AppliedEpoch
    requires Contested(g, record)
  {
    AppliedEpoch(record.id, Some(FromAt(g, record)), BaselineAt(g, record), frontier, change)
  }

  /** An uncontested record changes nothing at all. */
  lemma {:induction false} UncontestedChangesNothing(protocol: Protocol, policy: Policy, g: Group, record: Record)
    requires g.removed || Contiguously(g)
    requires !Contested(g, record)
    ensures ApplyCommit(protocol, policy, g, record).0 == g
    ensures ApplyCommit(protocol, policy, g, record).1
            == if g.removed then Removed
               else if record.epoch > g.state.epoch then Gap(record.epoch, g.state.epoch)
               else if record.epoch >= Base(g) && g.applied[record.epoch - Base(g)].1.commitId == record.id
               then Ignored(Duplicate)
               else Ignored(Stale)
  {
    if !g.removed && record.epoch <= g.state.epoch {
      GetContiguous(g.applied, Base(g), record.epoch);
    }
  }

  /** What becomes of a group by a judgement of a contested record, told at the record's place in the chain. */
  ghost function Fares(protocol: Protocol, policy: Policy, g: Group, record: Record,
                       judged: Judgement): (Group, Outcome)
    requires Contested(g, record)
  {
    match judged
    case Refused => (g, Rejected)
    case Lost => (g, Ignored(LostRace))
    case Held(known) =>
      var waiting := g.(witnesses := known);
      (match StepBack(policy, waiting)
       case Some(back) => (back, Ignored(Withheld))
       case None => (waiting, Rejected))
    case Accepted(change, frontier, next) =>
      var k := record.epoch - Base(g);
      if protocol.active(next)
      then (TookAt(g, k, EntryAt(g, record, change, frontier), next),
            if record.epoch == g.state.epoch then Applied(next.epoch)
            else Replaced(next.epoch, g.applied[k].1.commitId))
      else (Adopt(protocol, g, record, FromAt(g, record), BaselineAt(g, record), change, frontier, next), Removed)
  }

  lemma {:induction false} AdoptedShape(protocol: Protocol, g: Group, record: Record, change: Change,
                                        frontier: Frontier, next: Branch)
    requires Contested(g, record) && protocol.active(next)
    ensures var adopted := Adopt(protocol, g, record, FromAt(g, record), BaselineAt(g, record), change, frontier, next);
            var took := TookAt(g, record.epoch - Base(g), EntryAt(g, record, change, frontier), next);
            && adopted.(applied := Below(adopted.applied, record.epoch + 1)) == took
            && (record.epoch == g.state.epoch ==> adopted == took)
  {
    TakeShape(g, record.epoch, EntryAt(g, record, change, frontier));
  }

  lemma {:induction false} ApplyIsAdvance(protocol: Protocol, policy: Policy, g: Group, record: Record)
    requires Contested(g, record)
    ensures var (taken, outcome) := Advance(protocol, policy, g, record, FromAt(g, record), BaselineAt(g, record),
                                            RivalAt(g, record));
            ApplyCommit(protocol, policy, g, record)
            == if record.epoch < g.state.epoch && outcome.Applied?
               then (taken.(applied := Below(taken.applied, record.epoch + 1)),
                     Replaced(outcome.epoch, RivalAt(g, record).value.commitId))
               else (taken, outcome)
  {
    GetContiguous(g.applied, Base(g), record.epoch);
  }

  /** A contested record does what its judgement says, at its own place in the chain. */
  lemma {:induction false} ContestedShape(protocol: Protocol, policy: Policy, g: Group, record: Record)
    requires Contested(g, record)
    ensures ApplyCommit(protocol, policy, g, record)
            == Fares(protocol, policy, g, record, JudgedAt(protocol, policy, g, record))
  {
    ApplyIsAdvance(protocol, policy, g, record);
    match JudgedAt(protocol, policy, g, record)
    case Accepted(change, frontier, next) =>
      if protocol.active(next) {
        AdoptedShape(protocol, g, record, change, frontier, next);
      }
    case _ =>
  }

  // ----- every public call keeps the invariant -----------------------------------------------

  lemma {:induction false} KnowingKeepsCovered(g: Group, id: CommitId, w: Witness)
    requires Contiguously(g) && WitnessesCovered(g)
    requires forall i :: 0 <= i < |g.applied| && g.applied[i].0 >= w.epoch ==> g.applied[i].1.before.Some?
    ensures WitnessesCovered(g.(witnesses := Set(g.witnesses, id, w)))
  {
    SetMembers(g.witnesses, id, w);
    var known := Set(g.witnesses, id, w);
    forall v, i | 0 <= v < |known| && 0 <= i < |g.applied| && g.applied[i].0 >= known[v].1.epoch
      ensures g.applied[i].1.before.Some?
    {
      assert known[v] in known;
    }
  }

  lemma {:induction false} WitnessesKeepChained(protocol: Protocol, g: Group, known: seq<(CommitId, Witness)>)
    requires Inv(protocol, g) && !g.removed
    requires WitnessesCovered(g.(witnesses := known))
    ensures Inv(protocol, g.(witnesses := known))
  {
    var g' := g.(witnesses := known);
    SameCommitsKept(protocol, g, g');
    assert StashBeyond(g');
  }

  lemma {:induction false} HeldKnown(protocol: Protocol, policy: Policy, g: Group, record: Record)
    requires Contested(g, record) && Inv(protocol, g)
    requires JudgedAt(protocol, policy, g, record).Held?
    ensures var waiting := g.(witnesses := JudgedAt(protocol, policy, g, record).witnesses);
            Inv(protocol, waiting) && Waiting(policy, waiting.witnesses)
  {
    var commit := protocol.readCommit(record.bytes).value;
    var processed := protocol.process(FromAt(g, record).At(), commit);
    var known := JudgedAt(protocol, policy, g, record).witnesses;
    if processed.Judged? && known != g.witnesses {
      var w := Witness(processed.change.committer, record.epoch, commit.frontier);
      KnowingKeepsCovered(g, record.id, w);
      WitnessesKeepChained(protocol, g, known);
    }
  }

  lemma {:induction false} ApplyKeepsInv(protocol: Protocol, policy: Policy, g: Group, record: Record)
    requires Inv(protocol, g)
    ensures Inv(protocol, ApplyCommit(protocol, policy, g, record).0)
  {
    if !Contested(g, record) {
      UncontestedChangesNothing(protocol, policy, g, record);
    } else {
      ContestedShape(protocol, policy, g, record);
      match JudgedAt(protocol, policy, g, record)
      case Held(known) =>
        HeldKnown(protocol, policy, g, record);
        StepBackChained(protocol, policy, g.(witnesses := known));
      case Accepted(change, frontier, next) =>
        if protocol.active(next) {
          TookChained(protocol, g, record.epoch - Base(g), EntryAt(g, record, change, frontier), next);
        } else {
          ResumedBranch(g.resumable, ClientState(next.epoch, next.authenticator, 0));
        }
      case _ =>
    }
  }

  /** This device's own commit, taken at the end; the stash stays as it is. */
  lemma {:induction false} OwnTaken(protocol: Protocol, g: Group, taken: AppliedEpoch, g': Group)
    requires !g.removed && Chained(protocol, g)
    requires taken.baseline == g.bound && ByOwner(g.owner, taken.change)
    requires taken.before.Some? && taken.before.value.epoch == g.state.epoch && protocol.active(taken.before.value.At())
    requires g'.applied == TakenAt(g, |g.applied|, taken) && g'.bound == taken.frontier
    requires g'.state.epoch == g.state.epoch + 1
    requires g'.owner == g.owner && g'.resumable == g.resumable && g'.witnesses == []
    ensures Chained(protocol, g')
  {
    var k := |g.applied|;
    TakeContiguous(g.applied[..k] + [(Base(g) + k, taken)], Base(g), Base(g) + k + 1 - RETAINED_EPOCHS);
    TookKeeps(protocol, g, k, taken, g'.state.At());
    TookBound(g, k, taken, g'.state.At());
    SameCommitsKept(protocol, TookAt(g, k, taken, g'.state.At()), g');
    OwnStash(g, taken, g');
    assert Contiguously(g') && WitnessesCovered(g');
  }

  lemma {:induction false} SameCommitsKept(protocol: Protocol, g: Group, g': Group)
    requires g'.applied == g.applied && g'.bound == g.bound
    requires KeptInPlace(protocol, g) && KeptSuffix(g) && BoundInTurn(g)
    ensures KeptInPlace(protocol, g') && KeptSuffix(g') && BoundInTurn(g')
  {
    assert forall i :: 0 < i < |g.applied| ==> StepsFromLast(g, i) ==> StepsFromLast(g', i);
  }

  lemma {:induction false} OwnStash(g: Group, taken: AppliedEpoch, g': Group)
    requires Contiguously(g) && StashBeyond(g)
    requires ByOwner(g.owner, taken.change)
    requires g'.applied == TakenAt(g, |g.applied|, taken) && g'.resumable == g.resumable && g'.owner == g.owner
    ensures StashBeyond(g')
  {
  }

  lemma {:induction false} ConfirmKeepsInv(protocol: Protocol, g: Group, commitId: CommitId)
    requires Inv(protocol, g)
    ensures Inv(protocol, Confirm(g, commitId).0)
  {
    if g.pending.Some? {
      var pending := g.pending.value;
      var g' := Confirm(g, commitId).0;
      SameEpochIsSameBranch(g.state, pending.before);
      if SameEpoch(g.state, pending.before) {
        var taken := AppliedEpoch(commitId, Some(pending.before), g.bound, pending.frontier, pending.change);
        TakeShape(g, g.state.epoch, taken);
        OwnTaken(protocol, g, taken, g');
      } else {
        PendingAloneKeeps(protocol, g, g');
      }
    }
  }

  /** The chain does not depend on the pending commit or on how far the ratchets went. */
  lemma {:induction false} PendingAloneKeeps(protocol: Protocol, g: Group, g': Group)
    requires Inv(protocol, g)
    requires g'.state.At() == g.state.At()
    requires g' == g.(state := g'.state, pending := g'.pending)
    requires g'.pending.Some? ==> PendingBuilt(protocol, g.owner, g'.pending.value)
    ensures Inv(protocol, g')
  {
    if !g.removed {
      assert g'.state.epoch == g.state.epoch;
      SameCommitsKept(protocol, g, g');
      assert WitnessesCovered(g');
      assert StashBeyond(g');
    }
  }

  lemma {:induction false} BuildKeepsInv(protocol: Protocol, policy: Policy, g: Group, draft: Bytes)
    requires Sound(protocol, g.owner) && Inv(protocol, g)
    ensures Inv(protocol, BuildCommit(protocol, policy, g, draft).0)
  {
    var (g', built) := BuildCommit(protocol, policy, g, draft);
    if built {
      assert protocol.build(g.state.At(), draft).Some?;
      PendingAloneKeeps(protocol, g, g');
    }
  }

  lemma {:induction false} ApplyKeepsOwner(protocol: Protocol, policy: Policy, g: Group, record: Record)
    ensures ApplyCommit(protocol, policy, g, record).0.owner == g.owner
  {
  }

  lemma {:induction false} StepKeepsInv(protocol: Protocol, g: Group, call: Call)
    requires Sound(protocol, g.owner) && Inv(protocol, g)
    ensures Inv(protocol, Step(protocol, g, call)) && Step(protocol, g, call).owner == g.owner
  {
    match call
    case ApplyCall(policy, record) =>
      ApplyKeepsInv(protocol, policy, g, record);
      ApplyKeepsOwner(protocol, policy, g, record);
    case BuildCall(policy, draft) => BuildKeepsInv(protocol, policy, g, draft);
    case ConfirmCall(commitId) => ConfirmKeepsInv(protocol, g, commitId);
    case AbandonCall => PendingAloneKeeps(protocol, g, g.(pending := None));
    case MessageCall(generation) => PendingAloneKeeps(protocol, g, g.(state := g.state.(generation := generation)));
  }

  /** Every state a run of public calls can reach, whatever the policy answers along the way. */
  lemma {:induction false} RunKeepsInv(protocol: Protocol, g: Group, calls: seq<Call>)
    requires Sound(protocol, g.owner) && Inv(protocol, g)
    ensures Inv(protocol, Run(protocol, g, calls))
    decreases |calls|
  {
    if calls != [] {
      StepKeepsInv(protocol, g, calls[0]);
      RunKeepsInv(protocol, Step(protocol, g, calls[0]), calls[1..]);
    }
  }

  lemma {:induction false} ReachableInv(protocol: Protocol, owner: LeafOwner, state: ClientState, bound: Frontier,
                                        calls: seq<Call>)
    requires Sound(protocol, owner)
    ensures Inv(protocol, Run(protocol, Start(protocol, owner, state, bound), calls))
  {
    RunKeepsInv(protocol, Start(protocol, owner, state, bound), calls);
  }
}

/** The two ways the order of arrival can decide: a rival past the retained epochs, and an own commit refused. */
module MlsGroupDivergence {
  import opened Prelude
  import opened MlsGroupModel
  import opened MlsGroupInvariant
  import opened MlsGroupSafety
  import opened MlsGroupRetake
  import opened MlsGroupRaces
  import opened MlsGroupProgress
  import opened MlsGroupConvergence

  // ----- a library and its commits -----------------------------------------------------------

  function Filled(tag: Byte): Authenticator {
    seq(AUTHENTICATOR_LENGTH, i => tag)
  }

  /** The branches that commits are made in: the first, and those after the weaker of its two commits. */
  function MadeIn(epoch: nat): Branch {
    Branch(epoch, if epoch == 0 then Filled(0) else Filled(2))
  }

  function IdOf(tag: Byte): CommitId {
    if tag == 1 then ['a'] else if tag == 2 then ['b'] else ['c']
  }

  /**
   * A library that opens a commit only in the branch it was made in, and none with the tag of
   * this device's own; 0 is no device's. A commit's bytes are its tag and as many zeros as its
   * epoch, and it leads to a branch its tag tells.
   */
  function Tagging(own: Byte): Protocol {
    Protocol((bytes: Bytes) => if bytes == [] then None else Some(Commit(|bytes| - 1, [], bytes)),
             (branch: Branch, commit: Commit) =>
               if commit.message == [] || commit.message[0] == own || branch != MadeIn(commit.epoch) then Unprocessable
               else Judged(PlainChange(IdOf(commit.message[0])), Some(Settled(Filled(commit.message[0]), true))),
             (branch: Branch, draft: Bytes) =>
               if branch == MadeIn(0) then Some(Built(PlainChange(IdOf(own)), Filled(own))) else None,
             (branch: Branch) => true)
  }

  function OwnerOf(own: Byte): LeafOwner {
    LeafOwner(IdOf(own), IdOf(own))
  }

  function Tagged(epoch: nat, tag: Byte): Record {
    Record(IdOf(tag), epoch, [tag] + seq(epoch, i => 0))
  }

  const LAX: Policy := LaxPolicy(false)

  /** The two rivals for the first epoch; the lower id wins. */
  const STRONGER: Record := Tagged(0, 1)
  const WEAKER: Record := Tagged(0, 2)

  function StateAfter(n: nat, tag: Byte): ClientState {
    ClientState(n, if n == 0 then Filled(0) else Filled(tag), 0)
  }

  function Fresh(own: Byte, pending: Option<PendingCommit>): Group {
    Group(OwnerOf(own), StateAfter(0, 0), [], false, pending, [], [], [])
  }

  /** The group once it took one of the rivals. */
  function Holding(own: Byte, tag: Byte, pending: Option<PendingCommit>): Group {
    Fresh(own, pending).(
      state := StateAfter(1, tag),
      applied := [(0, AppliedEpoch(IdOf(tag), Some(StateAfter(0, 0)), [], [], PlainChange(IdOf(tag))))])
  }

  lemma {:induction false} TagsAreTold(tag: Byte, other: Byte)
    ensures Filled(tag) == Filled(other) ==> tag == other
  {
    if Filled(tag) == Filled(other) {
      assert Filled(tag)[0] == Filled(other)[0];
    }
  }

  lemma {:induction false} NothingWaits(witnesses: seq<(CommitId, Witness)>)
    ensures !Waiting(LAX, witnesses)
  {
  }

  lemma {:induction false} Reading(own: Byte, epoch: nat, tag: Byte, at: Place)
    ensures Settles(Tagging(own), LAX, at, Tagged(epoch, tag))
            == if tag == own || at.branch != MadeIn(epoch) then None
               else Some(Settlement(PlainChange(IdOf(tag)), [], Branch(epoch + 1, Filled(tag))))
  {
  }

  /** A fresh group takes a rival it reads. */
  lemma {:induction false} FirstIsTaken(own: Byte, tag: Byte, pending: Option<PendingCommit>)
    requires tag != own
    ensures ApplyCommit(Tagging(own), LAX, Fresh(own, pending), Tagged(0, tag))
            == (Holding(own, tag, pending), Applied(1))
  {
    var g, record := Fresh(own, pending), Tagged(0, tag);
    NothingWaits([]);
    assert JudgedAt(Tagging(own), LAX, g, record) == Accepted(PlainChange(IdOf(tag)), [], StateAfter(1, tag).At());
    ContestedShape(Tagging(own), LAX, g, record);
    var taken := EntryAt(g, record, PlainChange(IdOf(tag)), []);
    assert TakenAt(g, 0, taken) == [(0, taken)];
  }

  /** The stronger replaces the weaker, for a device that reads it. */
  lemma {:induction false} StrongerReplaces(own: Byte)
    requires own != 1
    ensures ApplyCommit(Tagging(own), LAX, Holding(own, 2, None), STRONGER).0 == Holding(own, 1, None)
  {
    var g := Holding(own, 2, None);
    NothingWaits([]);
    assert Contested(g, STRONGER);
    assert Less(['a'], ['b']);
    assert JudgedAt(Tagging(own), LAX, g, STRONGER) == Accepted(PlainChange(IdOf(1)), [], StateAfter(1, 1).At());
    ContestedShape(Tagging(own), LAX, g, STRONGER);
  }

  /** A group holding the stronger commit, or its rival when it cannot read the stronger, changes no more. */
  lemma {:induction false} HoldingStays(own: Byte, tag: Byte, record: Record)
    requires tag == 1 || (tag == 2 && own == 1)
    requires record == STRONGER || record == WEAKER
    ensures ApplyCommit(Tagging(own), LAX, Holding(own, tag, None), record).0 == Holding(own, tag, None)
  {
    var g := Holding(own, tag, None);
    if Contested(g, record) {
      NothingWaits([]);
      assert !Less(['b'], ['a']);
      assert JudgedAt(Tagging(own), LAX, g, record).Lost? || JudgedAt(Tagging(own), LAX, g, record).Refused?;
      ContestedShape(Tagging(own), LAX, g, record);
    } else {
      UncontestedChangesNothing(Tagging(own), LAX, g, record);
    }
  }

  lemma {:induction false} RecordsTell(epoch: nat, tag: Byte)
    ensures Tagged(epoch, tag).epoch == epoch && Tagged(epoch, tag).bytes[0] == tag
  {
  }

  /** Commits of this library are of one branch each, and lead to branches of their own. */
  lemma {:induction false} TaggedBranch(records: set<Record>)
    requires forall r :: r in records ==> |r.bytes| > 0 && r == Tagged(r.epoch, r.bytes[0])
    ensures Branching(Tagging(0), LAX, records)
  {
    forall a, b | ValidLink(Tagging(0), LAX, records, a) && ValidLink(Tagging(0), LAX, records, b)
      ensures TellApart(a, b)
    {
      Reading(0, a.record.epoch, a.record.bytes[0], a.at);
      Reading(0, b.record.epoch, b.record.bytes[0], b.at);
      TagsAreTold(a.record.bytes[0], b.record.bytes[0]);
    }
  }

  // ----- a rival past the retained epochs ----------------------------------------------------

  function EntryOf(n: nat, i: nat): (nat, AppliedEpoch) {
    (i, AppliedEpoch(IdOf(2), if n <= i + RETAINED_EPOCHS then Some(StateAfter(i, 2)) else None, [], [],
                     PlainChange(IdOf(2))))
  }

  /** The group that took `n` commits, the weaker rival first. */
  function ChainAfter(n: nat): (g: Group)
    ensures |g.applied| == n && forall i :: 0 <= i < n ==> g.applied[i] == EntryOf(n, i)
  {
    Fresh(0, None).(state := StateAfter(n, 2), applied := seq(n, i requires 0 <= i < n => EntryOf(n, i)))
  }

  lemma {:induction false} NextIsJudged(n: nat)
    ensures var g, record := ChainAfter(n), Tagged(n, 2);
            && Contested(g, record) && Base(g) == 0
            && JudgedAt(Tagging(0), LAX, g, record)
               == Accepted(PlainChange(IdOf(2)), [], StateAfter(n + 1, 2).At())
  {
    NothingWaits([]);
  }

  lemma {:induction false} NextIsTaken(n: nat)
    ensures ApplyCommit(Tagging(0), LAX, ChainAfter(n), Tagged(n, 2)) == (ChainAfter(n + 1), Applied(n + 1))
  {
    var g, record := ChainAfter(n), Tagged(n, 2);
    NextIsJudged(n);
    ContestedShape(Tagging(0), LAX, g, record);
    var taken := EntryAt(g, record, PlainChange(IdOf(2)), []);
    assert TakenAt(g, n, taken) == ChainAfter(n + 1).applied;
  }

  /** The commits of the epochs from `n` to before `m`, in the branches after the weaker rival. */
  function Later(n: nat, m: nat): (records: seq<Record>)
    requires n <= m
    ensures forall r :: r in records <==> exists e :: n <= e < m && r == Tagged(e, 2)
    decreases m - n
  {
    if n == m then [] else [Tagged(n, 2)] + Later(n + 1, m)
  }

  lemma {:induction false} LaterAreTaken(n: nat, m: nat)
    requires n <= m
    ensures Deliver(Tagging(0), LAX, ChainAfter(n), Later(n, m)).0 == ChainAfter(m)
    decreases m - n
  {
    if n < m {
      NextIsTaken(n);
      LaterAreTaken(n + 1, m);
      assert Later(n, m)[1..] == Later(n + 1, m);
    }
  }

  /** Nine epochs on, every commit is held or stale. */
  lemma {:induction false} ChainStays(later: seq<Record>, records: seq<Record>)
    requires later == Later(0, 9) && forall r :: r in records ==> r == STRONGER || r in later
    ensures Deliver(Tagging(0), LAX, ChainAfter(9), records).0 == ChainAfter(9)
    decreases |records|
  {
    if records != [] {
      var g, record := ChainAfter(9), records[0];
      assert record in records;
      assert g.applied[record.epoch] == EntryOf(9, record.epoch);
      UncontestedChangesNothing(Tagging(0), LAX, g, record);
      ChainStays(later, records[1..]);
    }
  }

  /** After the stronger rival no commit made after the weaker is read. */
  lemma {:induction false} StrongerStays(later: seq<Record>, records: seq<Record>)
    requires later == Later(0, 9) && forall r :: r in records ==> r == STRONGER || r in later
    ensures Deliver(Tagging(0), LAX, Holding(0, 1, None), records).0 == Holding(0, 1, None)
    decreases |records|
  {
    if records != [] {
      var record := records[0];
      assert record in records;
      if record == STRONGER || record.epoch == 0 {
        HoldingStays(0, 1, record);
      } else {
        UnreadAfterStronger(record.epoch);
      }
      StrongerStays(later, records[1..]);
    }
  }

  lemma {:induction false} UnreadAfterStronger(epoch: nat)
    requires epoch > 0
    ensures ApplyCommit(Tagging(0), LAX, Holding(0, 1, None), Tagged(epoch, 2)).0 == Holding(0, 1, None)
  {
    var g, record := Holding(0, 1, None), Tagged(epoch, 2);
    if Contested(g, record) {
      TagsAreTold(1, 2);
      assert JudgedAt(Tagging(0), LAX, g, record) == Refused;
      ContestedShape(Tagging(0), LAX, g, record);
    } else {
      UncontestedChangesNothing(Tagging(0), LAX, g, record);
    }
  }

  /** The commits of nine epochs, with two rivals for the first. */
  const NINE_EPOCHS: seq<Record> := [STRONGER] + Later(0, 9)

  lemma {:induction false} TaggedIds(records: set<Record>)
    requires forall r :: r in records ==>
               |r.bytes| > 0 && (r == Tagged(r.epoch, 1) || r == Tagged(r.epoch, 2))
    ensures UniqueIds(records)
  {
  }

  lemma {:induction false} NineEpochs(later: seq<Record>)
    requires later == Later(0, 9)
    ensures UniqueIds(SetOf([STRONGER] + later)) && Branching(Tagging(0), LAX, SetOf([STRONGER] + later))
    ensures forall r :: r in [STRONGER] + later ==> r.epoch <= RETAINED_EPOCHS
  {
    var records := SetOf([STRONGER] + later);
    forall r | r in records
      ensures r.epoch <= RETAINED_EPOCHS && |r.bytes| > 0 && r == Tagged(r.epoch, r.bytes[0])
      ensures r == Tagged(r.epoch, 1) || r == Tagged(r.epoch, 2)
    {
      if r != STRONGER {
        var e :| 0 <= e < 9 && r == Tagged(e, 2);
        RecordsTell(e, 2);
      }
    }
    TaggedIds(records);
    TaggedBranch(records);
  }

  lemma {:induction false} DeliverLast(g: Group, records: seq<Record>, last: seq<Record>)
    ensures Deliver(Tagging(0), LAX, g, records + last).0
            == Deliver(Tagging(0), LAX, Deliver(Tagging(0), LAX, g, records).0, last).0
  {
    DeliverSplits(Tagging(0), LAX, g, records + last, |records|);
    assert (records + last)[..|records|] == records && (records + last)[|records|..] == last;
  }

  /**
   * One epoch more than the window, and devices need not converge. Two that start equal see the
   * same commits, each of one branch, the stronger rival for the first epoch late or early. The
   * one ends nine epochs on, the other stays at epoch 1, however often they see them all again.
   */
  lemma {:induction false} LateRivalDiverges(again: seq<Record>)
    requires forall r :: r in again ==> r in NINE_EPOCHS
    ensures var protocol, policy, start := Tagging(0), LAX, Fresh(0, None);
            && Inv(protocol, start) && NothingHeld(policy)
            && UniqueIds(SetOf(NINE_EPOCHS)) && Branching(protocol, policy, SetOf(NINE_EPOCHS))
            && (forall r :: r in NINE_EPOCHS ==> r.epoch <= RETAINED_EPOCHS)
            && var late := Deliver(protocol, policy, start, Later(0, 9) + [STRONGER]).0;
               var early := Deliver(protocol, policy, start, [STRONGER] + Later(0, 9)).0;
               && Deliver(protocol, policy, late, again).0.state.At() == MadeIn(9)
               && Deliver(protocol, policy, early, again).0.state.At() == Branch(1, Filled(1))
  {
    var later := Later(0, 9);
    NineEpochs(later);
    assert ChainAfter(0) == Fresh(0, None);
    LaterAreTaken(0, 9);
    DeliverLast(Fresh(0, None), later, [STRONGER]);
    ChainStays(later, [STRONGER]);
    ChainStays(later, again);
    FirstIsTaken(0, 1, None);
    DeliverLast(Fresh(0, None), [STRONGER], later);
    StrongerStays(later, later);
    StrongerStays(later, again);
  }

  // ----- an own commit whose confirmation is refused -----------------------------------------

  const RIVALS: set<Record> := {STRONGER, WEAKER}

  function BuiltBy(own: Byte): PendingCommit {
    PendingCommit(StateAfter(0, 0), PlainChange(IdOf(own)), 0, [], StateAfter(1, own))
  }

  /** A device fresh in the first branch, which cannot read its own commit back. */
  function DeviceOf(own: Byte): Device {
    AsItIs(Tagging(own), {Tagged(0, own)}, Fresh(own, None))
  }

  /** The one builds the stronger commit, is shown the weaker, and is refused when it confirms its own. */
  const LATE_CONFIRM: seq<Event> :=
    [Meanwhile(BuildCall(LAX, [])), Shown(WEAKER), Meanwhile(ConfirmCall(STRONGER.id))]

  /** The other builds and confirms the weaker, and is shown the stronger. */
  const EARLY_CONFIRM: seq<Event> := [Meanwhile(BuildCall(LAX, [])), Confirmed(WEAKER), Shown(STRONGER)]

  lemma {:induction false} ThreeEvents(protocol: Protocol, records: set<Record>, g: Group, a: Event, b: Event, c: Event)
    requires Fits(protocol, Tagging(0), LAX, records, g, a)
    requires Fits(protocol, Tagging(0), LAX, records, Step(protocol, g, CallOf(LAX, a)), b)
    requires Fits(protocol, Tagging(0), LAX, records,
                  Step(protocol, Step(protocol, g, CallOf(LAX, a)), CallOf(LAX, b)), c)
    ensures AllFit(protocol, Tagging(0), LAX, records, g, [a, b, c])
    ensures Run(protocol, g, CallsOf(LAX, [a, b, c]))
            == Step(protocol, Step(protocol, Step(protocol, g, CallOf(LAX, a)), CallOf(LAX, b)), CallOf(LAX, c))
  {
    var g1 := Step(protocol, g, CallOf(LAX, a));
    var g2 := Step(protocol, g1, CallOf(LAX, b));
    assert [a, b, c][1..] == [b, c] && [b, c][1..] == [c] && [c][1..] == [];
    assert AllFit(protocol, Tagging(0), LAX, records, g2, [c]);
    assert AllFit(protocol, Tagging(0), LAX, records, g1, [b, c]);
    RunUnrolls(protocol, g, [a, b, c]);
    RunUnrolls(protocol, g1, [b, c]);
    RunUnrolls(protocol, g2, [c]);
  }

  lemma {:induction false} RunUnrolls(protocol: Protocol, g: Group, events: seq<Event>)
    requires events != []
    ensures Run(protocol, g, CallsOf(LAX, events))
            == Run(protocol, Step(protocol, g, CallOf(LAX, events[0])), CallsOf(LAX, events[1..]))
  {
    assert CallsOf(LAX, events)[1..] == CallsOf(LAX, events[1..]);
  }

  lemma {:induction false} Builds(own: Byte)
    ensures BuildCommit(Tagging(own), LAX, Fresh(own, None), []).0 == Fresh(own, Some(BuiltBy(own)))
  {
    NothingWaits([]);
  }

  /** The late confirmation is refused and only drops the pending commit. */
  lemma {:induction false} LateConfirmRuns()
    ensures AllFit(Tagging(1), Tagging(0), LAX, RIVALS, Fresh(1, None), LATE_CONFIRM)
    ensures Run(Tagging(1), Fresh(1, None), CallsOf(LAX, LATE_CONFIRM)) == Holding(1, 2, None)
  {
    Builds(1);
    FirstIsTaken(1, 2, Some(BuiltBy(1)));
    assert Confirm(Holding(1, 2, Some(BuiltBy(1))), STRONGER.id) == (Holding(1, 2, None), Rejected);
    ThreeEvents(Tagging(1), RIVALS, Fresh(1, None), LATE_CONFIRM[0], LATE_CONFIRM[1], LATE_CONFIRM[2]);
  }

  lemma {:induction false} ConfirmsFirst(own: Byte)
    ensures Confirm(Fresh(own, Some(BuiltBy(own))), IdOf(own)) == (Holding(own, own, None), Applied(1))
  {
    var taken := AppliedEpoch(IdOf(own), Some(StateAfter(0, 0)), [], [], PlainChange(IdOf(own)));
    assert Take([], 0, taken) == [(0, taken)];
  }

  lemma {:induction false} EarlyConfirmRuns()
    ensures AllFit(Tagging(2), Tagging(0), LAX, RIVALS, Fresh(2, None), EARLY_CONFIRM)
    ensures Run(Tagging(2), Fresh(2, None), CallsOf(LAX, EARLY_CONFIRM)) == Holding(2, 1, None)
  {
    Builds(2);
    ConfirmsFirst(2);
    Reading(0, 0, 2, Place(MadeIn(0), []));
    StrongerReplaces(2);
    ThreeEvents(Tagging(2), RIVALS, Fresh(2, None), EARLY_CONFIRM[0], EARLY_CONFIRM[1], EARLY_CONFIRM[2]);
  }

  lemma {:induction false} RivalsStay(own: Byte, tag: Byte, records: seq<Record>)
    requires tag == 1 || (tag == 2 && own == 1)
    requires forall r :: r in records ==> r in RIVALS
    ensures Deliver(Tagging(own), LAX, Holding(own, tag, None), records).0 == Holding(own, tag, None)
    decreases |records|
  {
    if records != [] {
      assert records[0] in records;
      HoldingStays(own, tag, records[0]);
      RivalsStay(own, tag, records[1..]);
    }
  }

  lemma {:induction false} RivalsShared()
    ensures Shared(LAX, RIVALS, Place(MadeIn(0), [])) && Branching(Tagging(0), LAX, RIVALS)
  {
    RecordsTell(0, 1);
    RecordsTell(0, 2);
    TaggedIds(RIVALS);
    TaggedBranch(RIVALS);
  }

  lemma {:induction false} ReadsRivals(own: Byte)
    requires own == 1 || own == 2
    ensures Reads(Tagging(own), Tagging(0), LAX, RIVALS, {Tagged(0, own)})
  {
    forall r, at | r in RIVALS
      ensures Settles(Tagging(own), LAX, at, r)
              == if r in {Tagged(0, own)} then None else Settles(Tagging(0), LAX, at, r)
    {
      var tag: Byte := if r == STRONGER then 1 else 2;
      RecordsTell(0, tag);
      RecordsTell(0, own);
      Reading(own, 0, tag, at);
      Reading(0, 0, tag, at);
    }
  }

  lemma {:induction false} FreshSetsOut(own: Byte)
    ensures SetOut(Tagging(0), LAX, RIVALS, Place(MadeIn(0), []), DeviceOf(own))
    ensures Sound(Tagging(own), OwnerOf(own))
  {
  }

  lemma {:induction false} SeesRivals(own: Byte, events: seq<Event>, tag: Byte)
    requires own == 1 || own == 2
    requires tag == 1 || (tag == 2 && own == 1)
    requires AllFit(Tagging(own), Tagging(0), LAX, RIVALS, Fresh(own, None), events)
    requires Run(Tagging(own), Fresh(own, None), CallsOf(LAX, events)) == Holding(own, tag, None)
    ensures Sees(Tagging(0), LAX, RIVALS, DeviceOf(own), events, [STRONGER, WEAKER])
    ensures Ends(LAX, DeviceOf(own), events, [STRONGER, WEAKER]) == Holding(own, tag, None)
  {
    RivalsShared();
    ReadsRivals(own);
    FreshSetsOut(own);
    RivalsStay(own, tag, [STRONGER, WEAKER]);
  }

  lemma {:induction false} LateConfirmLoses()
    ensures LostOwn(DeviceOf(1), LATE_CONFIRM) == {STRONGER} && LostOwn(DeviceOf(2), EARLY_CONFIRM) == {}
  {
    assert EARLY_CONFIRM[1] == Confirmed(WEAKER);
  }

  /**
   * Within the window devices need not converge either. Each of two that start equal builds a
   * commit it cannot read back. The stronger one's device is shown the weaker first, so that its
   * confirmation is refused: it lost its own commit, and the two stay on different branches,
   * however often they see both commits again.
   */
  lemma {:induction false} RefusedOwnDiverges(again: seq<Record>)
    requires forall r :: r in again ==> r in RIVALS
    ensures var world, origin, pass := Tagging(0), Place(MadeIn(0), []), [STRONGER, WEAKER];
            && Shared(LAX, RIVALS, origin)
            && SetOut(world, LAX, RIVALS, origin, DeviceOf(1)) && SetOut(world, LAX, RIVALS, origin, DeviceOf(2))
            && Sees(world, LAX, RIVALS, DeviceOf(1), LATE_CONFIRM, pass)
            && Sees(world, LAX, RIVALS, DeviceOf(2), EARLY_CONFIRM, pass)
            && var one := Ends(LAX, DeviceOf(1), LATE_CONFIRM, pass);
               var other := Ends(LAX, DeviceOf(2), EARLY_CONFIRM, pass);
               && Deliver(Tagging(1), LAX, one, again).0.state.At() == Branch(1, Filled(2))
               && Deliver(Tagging(2), LAX, other, again).0.state.At() == Branch(1, Filled(1))
    ensures Filled(1) != Filled(2)
    ensures LostOwn(DeviceOf(1), LATE_CONFIRM) == {STRONGER} && LostOwn(DeviceOf(2), EARLY_CONFIRM) == {}
  {
    LateConfirmRuns();
    EarlyConfirmRuns();
    RivalsShared();
    FreshSetsOut(1);
    FreshSetsOut(2);
    SeesRivals(1, LATE_CONFIRM, 2);
    SeesRivals(2, EARLY_CONFIRM, 1);
    RivalsStay(1, 2, again);
    RivalsStay(2, 1, again);
    TagsAreTold(1, 2);
    LateConfirmLoses();
  }
}

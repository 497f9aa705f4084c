/** Groups shown the same commits, whatever their past, end on the same chain: the greedy one. */
module MlsGroupConvergence {
  import opened Prelude
  import opened MlsGroupModel
  import opened MlsGroupInvariant
  import opened MlsGroupSafety
  import opened MlsGroupRetake
  import opened MlsGroupRaces
  import opened MlsGroupProgress

  /** The node gives the commits of one epoch distinct ids. */
  ghost predicate UniqueIds(records: set<Record>) {
    forall a, b :: a in records && b in records && a.epoch == b.epoch && a.id == b.id ==> a == b
  }

  /** The commits are for the epochs whose states a group keeps from this place on. */
  ghost predicate InWindow(records: set<Record>, origin: Place) {
    forall r :: r in records ==> origin.branch.epoch <= r.epoch < origin.branch.epoch + RETAINED_EPOCHS
  }

  /** A trail of commits among the records, each valid where it is. */
  ghost predicate Sourced(world: Protocol, policy: Policy, records: set<Record>, origin: Place, trail: seq<Link>) {
    && Linked(origin, trail)
    && forall i :: 0 <= i < |trail| ==> ValidLink(world, policy, records, trail[i])
  }

  /** `record` does not outdo the trail: where its epoch is, it is invalid or does not beat the commit taken. */
  ghost predicate Answered(world: Protocol, policy: Policy, origin: Place, trail: seq<Link>, record: Record) {
    var k := record.epoch - origin.branch.epoch;
    0 <= k <= |trail| && ValidAt(world, policy, origin, trail, k, record) ==>
      k < |trail| && !BeatsAt(world, policy, origin, trail, k, record)
  }

  /** At each epoch the strongest of the valid rivals, as far as there is any. */
  ghost predicate Greedy(world: Protocol, policy: Policy, records: set<Record>, origin: Place, trail: seq<Link>) {
    && Sourced(world, policy, records, origin, trail)
    && forall r :: r in records ==> Answered(world, policy, origin, trail, r)
  }

  // ----- there is only one greedy trail ------------------------------------------------------

  lemma {:induction false} SameTip(origin: Place, one: seq<Link>, other: seq<Link>, k: nat)
    requires k <= |one| && k <= |other| && one[..k] == other[..k]
    ensures Tip(origin, one, k) == Tip(origin, other, k)
  {
    if k > 0 {
      assert one[k - 1] == one[..k][k - 1] == other[..k][k - 1] == other[k - 1];
    }
  }

  /** Where two trails part, the link of the one is answered by the other. */
  lemma {:induction false} AnsweredByOther(world: Protocol, policy: Policy, records: set<Record>, origin: Place,
                                           one: seq<Link>, other: seq<Link>, k: nat)
    requires Sourced(world, policy, records, origin, one)
    requires k < |one| && k <= |other| && one[..k] == other[..k]
    requires Answered(world, policy, origin, other, one[k].record)
    ensures k < |other| && !Beats(LinkRank(policy, one[k]), LinkRank(policy, other[k]))
    ensures one[k].at == Tip(origin, other, k)
  {
    TipEpoch(origin, one, k);
    assert LinkedAt(origin, one, k) && ValidLink(world, policy, records, one[k]);
    SameTip(origin, one, other, k);
  }

  lemma {:induction false} SameStrongest(world: Protocol, policy: Policy, records: set<Record>, origin: Place,
                                         one: seq<Link>, other: seq<Link>, k: nat)
    requires UniqueIds(records)
    requires Greedy(world, policy, records, origin, one) && Greedy(world, policy, records, origin, other)
    requires k < |one| && k <= |other| && one[..k] == other[..k]
    ensures k < |other| && one[k] == other[k]
  {
    assert ValidLink(world, policy, records, one[k]);
    AnsweredByOther(world, policy, records, origin, one, other, k);
    assert ValidLink(world, policy, records, other[k]) && LinkedAt(origin, other, k);
    AnsweredByOther(world, policy, records, origin, other, one, k);
    BeatsTotal(LinkRank(policy, one[k]), LinkRank(policy, other[k]));
  }

  lemma {:induction false} GreedyAgree(world: Protocol, policy: Policy, records: set<Record>, origin: Place,
                                       one: seq<Link>, other: seq<Link>, k: nat)
    requires UniqueIds(records)
    requires Greedy(world, policy, records, origin, one) && Greedy(world, policy, records, origin, other)
    requires k <= |one|
    ensures k <= |other| && one[..k] == other[..k]
  {
    if k > 0 {
      GreedyAgree(world, policy, records, origin, one, other, k - 1);
      SameStrongest(world, policy, records, origin, one, other, k - 1);
      assert one[..k] == one[..k - 1] + [one[k - 1]] && other[..k] == other[..k - 1] + [other[k - 1]];
    }
  }

  lemma {:induction false} GreedyIsUnique(world: Protocol, policy: Policy, records: set<Record>, origin: Place,
                                          one: seq<Link>, other: seq<Link>)
    requires UniqueIds(records)
    requires Greedy(world, policy, records, origin, one) && Greedy(world, policy, records, origin, other)
    ensures one == other
  {
    GreedyAgree(world, policy, records, origin, one, other, |one|);
    GreedyAgree(world, policy, records, origin, other, one, |other|);
    assert one[..|one|] == one && other[..|other|] == other;
  }

  // ----- commits answered for good -----------------------------------------------------------

  function LinkRanks(policy: Policy): Link -> Rank {
    (link: Link) => LinkRank(policy, link)
  }

  /** This trail, or one above it. */
  ghost predicate AtLeast(policy: Policy, later: seq<Link>, trail: seq<Link>) {
    later == trail || Exceeds(LinkRanks(policy), later, trail)
  }

  /** Whatever trail above this one the group moves to, the record does not outdo it. */
  ghost predicate AnsweredOnward(world: Protocol, policy: Policy, records: set<Record>, origin: Place, trail: seq<Link>,
                                 record: Record) {
    forall later :: Sourced(world, policy, records, origin, later) && AtLeast(policy, later, trail) ==>
      Answered(world, policy, origin, later, record)
  }

  lemma {:induction false} AtLeastTransitive(policy: Policy, a: seq<Link>, b: seq<Link>, c: seq<Link>)
    requires AtLeast(policy, a, b) && AtLeast(policy, b, c)
    ensures AtLeast(policy, a, c)
  {
    if a != b && b != c {
      ExceedsTransitive(LinkRanks(policy), a, b, c);
    }
  }

  lemma {:induction false} OnwardOnward(world: Protocol, policy: Policy, records: set<Record>, origin: Place,
                                        trail: seq<Link>, after: seq<Link>, record: Record)
    requires AnsweredOnward(world, policy, records, origin, trail, record) && AtLeast(policy, after, trail)
    ensures AnsweredOnward(world, policy, records, origin, after, record)
  {
    forall later | Sourced(world, policy, records, origin, later) && AtLeast(policy, later, after)
      ensures Answered(world, policy, origin, later, record)
    {
      AtLeastTransitive(policy, later, after, trail);
    }
  }

  lemma {:induction false} RetakingIsAbove(world: Protocol, policy: Policy, origin: Place, trail: seq<Link>,
                                           record: Record, after: seq<Link>)
    requires Linked(origin, trail) && Retakes(world, policy, origin, trail, record, after)
    ensures AtLeast(policy, after, trail)
  {
    assert ExceedsAt(LinkRanks(policy), after, trail, record.epoch - origin.branch.epoch);
  }

  /** One commit is of one branch, and different ones lead to different branches. */
  ghost predicate TellApart(a: Link, b: Link) {
    && (a.record == b.record ==> a.at.branch == b.at.branch)
    && (a.made.next == b.made.next ==> a.record == b.record)
  }

  /** A branch tells the commit that led to it, and a commit the branch it was made in. */
  ghost predicate Branching(world: Protocol, policy: Policy, records: set<Record>) {
    forall a, b {:trigger TellApart(a, b)} ::
      ValidLink(world, policy, records, a) && ValidLink(world, policy, records, b) ==> TellApart(a, b)
  }

  lemma {:induction false} SourcedAt(world: Protocol, policy: Policy, records: set<Record>, origin: Place,
                                     trail: seq<Link>, i: nat)
    requires Sourced(world, policy, records, origin, trail) && i < |trail|
    ensures ValidLink(world, policy, records, trail[i]) && trail[i].at == Tip(origin, trail, i)
    ensures trail[i].record.epoch == origin.branch.epoch + i
    ensures Tip(origin, trail, i + 1) == trail[i].made.To()
  {
    TipEpoch(origin, trail, i);
    assert LinkedAt(origin, trail, i);
  }

  /** Two trails that part never meet in one branch again. */
  lemma {:induction false} PartedStayApart(world: Protocol, policy: Policy, records: set<Record>, origin: Place,
                                           one: seq<Link>, other: seq<Link>, j: nat, i: nat)
    requires Branching(world, policy, records)
    requires Sourced(world, policy, records, origin, one) && Sourced(world, policy, records, origin, other)
    requires j < i <= |one| && i <= |other| && one[j].record != other[j].record
    ensures Tip(origin, one, i).branch != Tip(origin, other, i).branch
    decreases i
  {
    SourcedAt(world, policy, records, origin, one, i - 1);
    SourcedAt(world, policy, records, origin, other, i - 1);
    assert TellApart(one[i - 1], other[i - 1]);
    if i - 1 > j {
      PartedStayApart(world, policy, records, origin, one, other, j, i - 1);
    }
  }

  /** A record taken does not beat itself. */
  lemma {:induction false} TakenIsAnswered(world: Protocol, policy: Policy, records: set<Record>, origin: Place,
                                           trail: seq<Link>, k: nat)
    requires Sourced(world, policy, records, origin, trail) && k < |trail|
    ensures Answered(world, policy, origin, trail, trail[k].record)
  {
    TipEpoch(origin, trail, k);
    assert LinkedAt(origin, trail, k) && ValidLink(world, policy, records, trail[k]);
    BeatsIrreflexive(LinkRank(policy, trail[k]));
  }

  /** Nothing taken over the record at its own place lets it beat that. */
  lemma {:induction false} OvertakenIsAnswered(world: Protocol, policy: Policy, records: set<Record>, origin: Place,
                                               trail: seq<Link>, later: seq<Link>, k: nat)
    requires Sourced(world, policy, records, origin, trail)
    requires k < |trail| && ExceedsAt(LinkRanks(policy), later, trail, k)
    ensures Answered(world, policy, origin, later, trail[k].record)
  {
    TipEpoch(origin, trail, k);
    SameTip(origin, trail, later, k);
    assert LinkedAt(origin, trail, k) && ValidLink(world, policy, records, trail[k]);
    BeatsAsymmetric(LinkRanks(policy)(later[k]), LinkRanks(policy)(trail[k]));
  }

  /** Once an earlier commit is replaced the record is valid nowhere any more. */
  lemma {:induction false} CutOffIsAnswered(world: Protocol, policy: Policy, records: set<Record>, origin: Place,
                                            trail: seq<Link>, later: seq<Link>, j: nat, k: nat)
    requires Branching(world, policy, records)
    requires Sourced(world, policy, records, origin, trail) && Sourced(world, policy, records, origin, later)
    requires j < k < |trail| && ExceedsAt(LinkRanks(policy), later, trail, j)
    ensures Answered(world, policy, origin, later, trail[k].record)
  {
    SourcedAt(world, policy, records, origin, trail, k);
    WeakerIsOther(world, policy, records, origin, trail, later, j);
    if k <= |later| {
      PartedStayApart(world, policy, records, origin, trail, later, j, k);
      OneBranch(world, policy, records, trail[k], Tip(origin, later, k));
    }
  }

  lemma {:induction false} OneBranch(world: Protocol, policy: Policy, records: set<Record>, link: Link, at: Place)
    requires Branching(world, policy, records) && ValidLink(world, policy, records, link)
    ensures Settles(world, policy, at, link.record).Some? ==> at.branch == link.at.branch
  {
    var made := Settles(world, policy, at, link.record);
    if made.Some? {
      assert TellApart(link, Link(link.record, at, made.value));
    }
  }

  lemma {:induction false} WeakerIsOther(world: Protocol, policy: Policy, records: set<Record>, origin: Place,
                                         trail: seq<Link>, later: seq<Link>, j: nat)
    requires Sourced(world, policy, records, origin, trail) && Sourced(world, policy, records, origin, later)
    requires j < |trail| && ExceedsAt(LinkRanks(policy), later, trail, j)
    ensures trail[j].record != later[j].record
  {
    SourcedAt(world, policy, records, origin, trail, j);
    SourcedAt(world, policy, records, origin, later, j);
    SameTip(origin, trail, later, j);
    BeatsIrreflexive(LinkRank(policy, trail[j]));
  }

  /** A commit on the trail is answered for good: who drops it takes a stronger one, and never needs it again. */
  lemma {:induction false} TakenIsAnsweredOnward(world: Protocol, policy: Policy, records: set<Record>, origin: Place,
                                                 trail: seq<Link>, k: nat)
    requires Branching(world, policy, records)
    requires Sourced(world, policy, records, origin, trail) && k < |trail|
    ensures AnsweredOnward(world, policy, records, origin, trail, trail[k].record)
  {
    forall later | Sourced(world, policy, records, origin, later) && AtLeast(policy, later, trail)
      ensures Answered(world, policy, origin, later, trail[k].record)
    {
      if later == trail {
        TakenIsAnswered(world, policy, records, origin, trail, k);
      } else {
        var j :| ExceedsAt(LinkRanks(policy), later, trail, j);
        if j < k {
          CutOffIsAnswered(world, policy, records, origin, trail, later, j, k);
        } else if j == k {
          OvertakenIsAnswered(world, policy, records, origin, trail, later, k);
        } else {
          assert later[k] == later[..j][k] == trail[..j][k] == trail[k];
          TakenIsAnswered(world, policy, records, origin, later, k);
        }
      }
    }
  }

  // ----- one device --------------------------------------------------------------------------

  /** The device reads each commit as every device does, except `mine`, which it can only confirm. */
  ghost predicate Reads(protocol: Protocol, world: Protocol, policy: Policy, records: set<Record>, mine: set<Record>) {
    forall r, at :: r in records ==>
      Settles(protocol, policy, at, r) == if r in mine then None else Settles(world, policy, at, r)
  }

  /** A record that settles nowhere for this device. */
  ghost predicate Unread(protocol: Protocol, policy: Policy, record: Record) {
    forall at :: Settles(protocol, policy, at, record).None?
  }

  lemma {:induction false} UnreadChangesNothing(protocol: Protocol, policy: Policy, g: Group, record: Record)
    requires !g.removed && Inv(protocol, g) && NothingHeld(policy) && Unread(protocol, policy, record)
    ensures ApplyCommit(protocol, policy, g, record).0 == g
  {
    if !Contested(g, record) {
      UncontestedChangesNothing(protocol, policy, g, record);
    } else {
      ContestedShape(protocol, policy, g, record);
      HoldsNothing(protocol, policy, g, record);
      AcceptsSettling(protocol, policy, g.witnesses, record, FromAt(g, record), BaselineAt(g, record),
                      RivalAt(g, record));
    }
  }

  /** What devices that are to converge share: the commits, and a roster that withholds none. */
  ghost predicate Shared(policy: Policy, records: set<Record>, origin: Place) {
    NothingHeld(policy) && UniqueIds(records) && InWindow(records, origin)
  }

  /** The group keeps every state from place `p` on, where its chain is this trail of published commits. */
  ghost predicate OnCourse(protocol: Protocol, world: Protocol, policy: Policy, records: set<Record>, g: Group, p: nat,
                           origin: Place, trail: seq<Link>) {
    && OnTrail(protocol, g, p, origin, trail)
    && KeptFrom(g, p)
    && Sourced(world, policy, records, origin, trail)
  }

  lemma {:induction false} DeliveryKeepsFrom(protocol: Protocol, policy: Policy, g: Group, p: nat, origin: Place,
                                             trail: seq<Link>, record: Record)
    requires OnTrail(protocol, g, p, origin, trail) && KeptFrom(g, p) && NothingHeld(policy)
    requires origin.branch.epoch <= record.epoch < origin.branch.epoch + RETAINED_EPOCHS
    requires !ApplyCommit(protocol, policy, g, record).0.removed
    ensures KeptFrom(ApplyCommit(protocol, policy, g, record).0, p)
  {
    if !Contested(g, record) {
      UncontestedChangesNothing(protocol, policy, g, record);
    } else {
      ContestedShape(protocol, policy, g, record);
      HoldsNothing(protocol, policy, g, record);
      OnTrailBase(protocol, g, p, origin, trail);
    }
  }

  lemma {:induction false} RetakesAlike(protocol: Protocol, world: Protocol, policy: Policy, records: set<Record>,
                                        mine: set<Record>, origin: Place, trail: seq<Link>, record: Record,
                                        after: seq<Link>)
    requires Reads(protocol, world, policy, records, mine) && record in records
    requires Sourced(world, policy, records, origin, trail) && Linked(origin, after)
    requires Retakes(protocol, policy, origin, trail, record, after)
    ensures record !in mine && Retakes(world, policy, origin, trail, record, after)
    ensures Sourced(world, policy, records, origin, after)
  {
    var k := record.epoch - origin.branch.epoch;
    assert Settles(protocol, policy, Tip(origin, trail, k), record)
           == Settles(world, policy, Tip(origin, trail, k), record);
    forall i | 0 <= i < |after|
      ensures ValidLink(world, policy, records, after[i])
    {
      if i < k {
        assert after[i] == trail[i];
      }
    }
  }

  lemma {:induction false} DeliveryKeepsCourse(protocol: Protocol, world: Protocol, policy: Policy,
                                               records: set<Record>, mine: set<Record>, g: Group, p: nat, origin: Place,
                                               trail: seq<Link>, record: Record)
    returns (after: seq<Link>)
    requires Shared(policy, records, origin) && Reads(protocol, world, policy, records, mine)
    requires OnCourse(protocol, world, policy, records, g, p, origin, trail) && record in records
    requires !ApplyCommit(protocol, policy, g, record).0.removed
    ensures OnCourse(protocol, world, policy, records, ApplyCommit(protocol, policy, g, record).0, p, origin, after)
    ensures if Changed(ApplyCommit(protocol, policy, g, record).1)
            then Retakes(world, policy, origin, trail, record, after)
            else after == trail && ApplyCommit(protocol, policy, g, record).0 == g
    ensures AtLeast(policy, after, trail)
  {
    after := DeliveryRetrails(protocol, policy, g, p, origin, trail, record);
    DeliveryKeepsFrom(protocol, policy, g, p, origin, trail, record);
    if Changed(ApplyCommit(protocol, policy, g, record).1) {
      RetakesAlike(protocol, world, policy, records, mine, origin, trail, record, after);
      RetakingIsAbove(world, policy, origin, trail, record, after);
    }
  }

  /** A contested record that is not accepted is invalid at its place or loses there. */
  lemma {:induction false} LoserIsAnswered(protocol: Protocol, policy: Policy, g: Group, p: nat, origin: Place,
                                           trail: seq<Link>, record: Record)
    requires OnTrail(protocol, g, p, origin, trail) && NothingHeld(policy)
    requires Contested(g, record) && record.epoch >= origin.branch.epoch
    requires !JudgedAt(protocol, policy, g, record).Accepted?
    ensures Answered(protocol, policy, origin, trail, record)
  {
    PlaceOf(protocol, g, p, origin, trail, record);
    AcceptsSettling(protocol, policy, g.witnesses, record, FromAt(g, record), BaselineAt(g, record),
                    RivalAt(g, record));
    var k := record.epoch - origin.branch.epoch;
    if k < |trail| {
      assert FollowsAt(g, p, trail, k);
    } else {
      OnTrailBase(protocol, g, p, origin, trail);
    }
  }

  /** With every state kept, only a record already held, or one too early, is not contested. */
  lemma {:induction false} UncontestedIsAnswered(protocol: Protocol, world: Protocol, policy: Policy,
                                                 records: set<Record>, g: Group, p: nat, origin: Place,
                                                 trail: seq<Link>, record: Record)
    requires OnCourse(protocol, world, policy, records, g, p, origin, trail)
    requires Shared(policy, records, origin) && record in records
    requires !Contested(g, record)
    ensures Answered(world, policy, origin, trail, record)
  {
    OnTrailBase(protocol, g, p, origin, trail);
    var k := record.epoch - origin.branch.epoch;
    if 0 <= k < |trail| {
      TipEpoch(origin, trail, k);
      assert FollowsAt(g, p, trail, k) && ValidLink(world, policy, records, trail[k]);
      assert trail[k].record == record;
      TakenIsAnswered(world, policy, records, origin, trail, k);
    }
  }

  /** A record the device reads is answered once it is delivered. */
  lemma {:induction false} DeliveredIsAnswered(protocol: Protocol, world: Protocol, policy: Policy,
                                               records: set<Record>, mine: set<Record>, g: Group, p: nat, origin: Place,
                                               trail: seq<Link>, record: Record, after: seq<Link>)
    requires Shared(policy, records, origin) && Reads(protocol, world, policy, records, mine)
    requires OnCourse(protocol, world, policy, records, g, p, origin, trail) && record in records && record !in mine
    requires !ApplyCommit(protocol, policy, g, record).0.removed
    requires Sourced(world, policy, records, origin, after)
    requires if Changed(ApplyCommit(protocol, policy, g, record).1)
             then Retakes(world, policy, origin, trail, record, after) else after == trail
    ensures Answered(world, policy, origin, after, record)
  {
    if Changed(ApplyCommit(protocol, policy, g, record).1) {
      TakenIsAnswered(world, policy, records, origin, after, record.epoch - origin.branch.epoch);
    } else if Contested(g, record) {
      ContestedShape(protocol, policy, g, record);
      LoserIsAnswered(protocol, policy, g, p, origin, trail, record);
    } else {
      UncontestedIsAnswered(protocol, world, policy, records, g, p, origin, trail, record);
    }
  }

  // ----- runs --------------------------------------------------------------------------------

  /** A published commit shown, an own one confirmed and adopted, or any call that takes no commit, as a refused one. */
  datatype Event = Shown(record: Record) | Confirmed(record: Record) | Meanwhile(call: Call)

  function CallOf(policy: Policy, event: Event): Call {
    match event
    case Shown(record) => ApplyCall(policy, record)
    case Confirmed(record) => ConfirmCall(record.id)
    case Meanwhile(call) => call
  }

  function CallsOf(policy: Policy, events: seq<Event>): seq<Call> {
    if events == [] then [] else [CallOf(policy, events[0])] + CallsOf(policy, events[1..])
  }

  /** An own commit adopted is published as a record that every other device reads as what it is. */
  ghost predicate Fits(protocol: Protocol, world: Protocol, policy: Policy, records: set<Record>, g: Group,
                       event: Event) {
    match event
    case Shown(record) => record in records || Unread(protocol, policy, record)
    case Confirmed(record) =>
      && record in records
      && g.pending.Some? && Confirm(g, record.id).1.Applied?
      && var pending := g.pending.value;
         Settles(world, policy, Place(g.state.At(), g.bound), record)
         == Some(Settlement(pending.change, pending.frontier, pending.state.At()))
    case Meanwhile(call) => TakesNone(g, call)
  }

  ghost predicate TakesNone(g: Group, call: Call) {
    match call
    case ApplyCall(policy, record) => false
    case ConfirmCall(commitId) => !Confirm(g, commitId).1.Applied?
    case _ => true
  }

  ghost predicate AllFit(protocol: Protocol, world: Protocol, policy: Policy, records: set<Record>, g: Group,
                         events: seq<Event>)
    decreases |events|
  {
    events != [] ==>
      && Fits(protocol, world, policy, records, g, events[0])
      && AllFit(protocol, world, policy, records, Step(protocol, g, CallOf(policy, events[0])), events[1..])
  }

  ghost predicate NoneOwn(events: seq<Event>) {
    forall e :: e in events ==> !e.Confirmed?
  }

  /** A group with the same chain, in the same branch, is on the same course. */
  lemma {:induction false} SameChainSameCourse(protocol: Protocol, world: Protocol, policy: Policy,
                                               records: set<Record>, g: Group, g': Group, p: nat, origin: Place,
                                               trail: seq<Link>)
    requires OnCourse(protocol, world, policy, records, g, p, origin, trail)
    requires Inv(protocol, g') && !g'.removed
    requires g'.applied == g.applied && g'.bound == g.bound && g'.state.At() == g.state.At()
    ensures OnCourse(protocol, world, policy, records, g', p, origin, trail)
  {
    forall i | 0 <= i < |trail|
      ensures FollowsAt(g', p, trail, i)
    {
      assert FollowsAt(g, p, trail, i);
    }
  }

  lemma {:induction false} MeanwhileKeepsCourse(protocol: Protocol, world: Protocol, policy: Policy,
                                                records: set<Record>, g: Group, p: nat, origin: Place, trail: seq<Link>,
                                                call: Call)
    requires Sound(protocol, g.owner)
    requires OnCourse(protocol, world, policy, records, g, p, origin, trail)
    requires TakesNone(g, call)
    ensures OnCourse(protocol, world, policy, records, Step(protocol, g, call), p, origin, trail)
  {
    StepKeepsInv(protocol, g, call);
    if call.ConfirmCall? {
      ConfirmAdoptsOnItsBranch(protocol, g, call.commitId);
    }
    SameChainSameCourse(protocol, world, policy, records, g, Step(protocol, g, call), p, origin, trail);
  }

  /** The commit confirmed is the next link, and the group what it would be had it taken the record. */
  lemma {:induction false} ConfirmTakes(protocol: Protocol, world: Protocol, policy: Policy, records: set<Record>,
                                        g: Group, record: Record)
    requires !g.removed && Inv(protocol, g) && Fits(protocol, world, policy, records, g, Confirmed(record))
    ensures var pending := g.pending.value;
            var taken := AppliedEpoch(record.id, Some(pending.before), g.bound, pending.frontier, pending.change);
            var took := TookAt(g, |g.applied|, taken, pending.state.At());
            var g' := Confirm(g, record.id).0;
            && pending.before.At() == g.state.At()
            && g'.applied == took.applied && g'.bound == took.bound && g'.state.At() == took.state.At() && !g'.removed
  {
    var pending := g.pending.value;
    SameEpochIsSameBranch(g.state, pending.before);
    TakeShape(g, g.state.epoch, AppliedEpoch(record.id, Some(pending.before), g.bound, pending.frontier,
                                             pending.change));
    ResumedBranch(g.resumable, ClientState(pending.state.epoch, pending.state.authenticator, 0));
  }

  lemma {:induction false} OwnLinkFollows(g: Group, p: nat, origin: Place, trail: seq<Link>, taken: AppliedEpoch,
                                          link: Link, g': Group)
    requires Contiguously(g) && Linked(origin, trail) && Follows(g, p, origin, trail)
    requires link.at == Place(g.state.At(), g.bound)
    requires link.record.epoch == g.state.epoch && link.made.next.epoch == g.state.epoch + 1
    requires taken == AppliedEpoch(link.record.id, taken.before, g.bound, link.made.frontier, link.made.change)
    requires taken.before.Some? && taken.before.value.At() == g.state.At()
    requires var took := TookAt(g, |g.applied|, taken, link.made.next);
             g'.applied == took.applied && g'.bound == took.bound && g'.state.At() == took.state.At()
    ensures Linked(origin, trail + [link]) && Follows(g', p, origin, trail + [link])
  {
    assert trail[..|trail|] == trail;
    CutLinked(origin, trail, |trail|, link);
    FollowsTook(g, p, origin, trail, |trail|, taken, link);
    forall i | 0 <= i < |trail + [link]|
      ensures FollowsAt(g', p, trail + [link], i)
    {
      assert FollowsAt(TookAt(g, |g.applied|, taken, link.made.next), p, trail + [link], i);
    }
  }

  lemma {:induction false} SourcedOn(world: Protocol, policy: Policy, records: set<Record>, origin: Place,
                                     trail: seq<Link>, link: Link)
    requires Sourced(world, policy, records, origin, trail) && Linked(origin, trail + [link])
    requires ValidLink(world, policy, records, link)
    ensures Sourced(world, policy, records, origin, trail + [link])
    ensures AtLeast(policy, trail + [link], trail)
  {
    assert ExceedsAt(LinkRanks(policy), trail + [link], trail, |trail|);
  }

  /** Confirming extends the course by the own commit, answered for good. */
  lemma {:induction false} ConfirmKeepsCourse(protocol: Protocol, world: Protocol, policy: Policy, records: set<Record>,
                                              g: Group, p: nat, origin: Place, trail: seq<Link>, record: Record)
    returns (after: seq<Link>)
    requires Shared(policy, records, origin) && Branching(world, policy, records)
    requires OnCourse(protocol, world, policy, records, g, p, origin, trail)
    requires Fits(protocol, world, policy, records, g, Confirmed(record))
    ensures OnCourse(protocol, world, policy, records, Confirm(g, record.id).0, p, origin, after)
    ensures AtLeast(policy, after, trail)
    ensures AnsweredOnward(world, policy, records, origin, after, record)
  {
    var pending := g.pending.value;
    var taken := AppliedEpoch(record.id, Some(pending.before), g.bound, pending.frontier, pending.change);
    var made := Settlement(pending.change, pending.frontier, pending.state.At());
    var link := Link(record, Place(g.state.At(), g.bound), made);
    var g' := Confirm(g, record.id).0;
    after := trail + [link];
    OnTrailBase(protocol, g, p, origin, trail);
    ConfirmKeepsInv(protocol, g, record.id);
    ConfirmTakes(protocol, world, policy, records, g, record);
    OwnLinkFollows(g, p, origin, trail, taken, link, g');
    SourcedOn(world, policy, records, origin, trail, link);
    TakenIsAnsweredOnward(world, policy, records, origin, after, |trail|);
  }

  lemma {:induction false} ShownKeepsCourse(protocol: Protocol, world: Protocol, policy: Policy, records: set<Record>,
                                            mine: set<Record>, g: Group, p: nat, origin: Place, trail: seq<Link>,
                                            record: Record)
    returns (after: seq<Link>)
    requires Shared(policy, records, origin) && Reads(protocol, world, policy, records, mine)
    requires OnCourse(protocol, world, policy, records, g, p, origin, trail)
    requires record in records || Unread(protocol, policy, record)
    requires !ApplyCommit(protocol, policy, g, record).0.removed
    ensures OnCourse(protocol, world, policy, records, ApplyCommit(protocol, policy, g, record).0, p, origin, after)
    ensures after == trail || (record in records && Retakes(world, policy, origin, trail, record, after))
    ensures AtLeast(policy, after, trail)
    ensures record in records && record !in mine ==> Answered(world, policy, origin, after, record)
  {
    if record in records {
      after := DeliveryKeepsCourse(protocol, world, policy, records, mine, g, p, origin, trail, record);
      if record !in mine {
        DeliveredIsAnswered(protocol, world, policy, records, mine, g, p, origin, trail, record, after);
      }
    } else {
      after := trail;
      UnreadChangesNothing(protocol, policy, g, record);
    }
  }

  lemma {:induction false} EventKeepsCourse(protocol: Protocol, world: Protocol, policy: Policy, records: set<Record>,
                                            mine: set<Record>, g: Group, p: nat, origin: Place, trail: seq<Link>,
                                            event: Event)
    returns (after: seq<Link>)
    requires Sound(protocol, g.owner)
    requires Shared(policy, records, origin) && Reads(protocol, world, policy, records, mine)
    requires event.Confirmed? ==> Branching(world, policy, records)
    requires OnCourse(protocol, world, policy, records, g, p, origin, trail)
    requires Fits(protocol, world, policy, records, g, event)
    requires !Step(protocol, g, CallOf(policy, event)).removed
    ensures OnCourse(protocol, world, policy, records, Step(protocol, g, CallOf(policy, event)), p, origin, after)
    ensures AtLeast(policy, after, trail)
    ensures event.Confirmed? ==> AnsweredOnward(world, policy, records, origin, after, event.record)
  {
    match event
    case Shown(record) =>
      after := ShownKeepsCourse(protocol, world, policy, records, mine, g, p, origin, trail, record);
    case Confirmed(record) =>
      after := ConfirmKeepsCourse(protocol, world, policy, records, g, p, origin, trail, record);
    case Meanwhile(call) =>
      after := trail;
      MeanwhileKeepsCourse(protocol, world, policy, records, g, p, origin, trail, call);
  }

  /** Whatever is shown, confirmed and built, the trail only rises, and what was confirmed is answered for good. */
  lemma {:induction false} EventsKeepCourse(protocol: Protocol, world: Protocol, policy: Policy, records: set<Record>,
                                            mine: set<Record>, g: Group, p: nat, origin: Place, trail: seq<Link>,
                                            events: seq<Event>)
    returns (after: seq<Link>)
    requires Sound(protocol, g.owner)
    requires Shared(policy, records, origin) && Reads(protocol, world, policy, records, mine)
    requires NoneOwn(events) || Branching(world, policy, records)
    requires OnCourse(protocol, world, policy, records, g, p, origin, trail)
    requires AllFit(protocol, world, policy, records, g, events)
    requires !Run(protocol, g, CallsOf(policy, events)).removed
    ensures OnCourse(protocol, world, policy, records, Run(protocol, g, CallsOf(policy, events)), p, origin, after)
    ensures AtLeast(policy, after, trail)
    ensures forall r :: Confirmed(r) in events ==> AnsweredOnward(world, policy, records, origin, after, r)
    decreases |events|
  {
    after := trail;
    if events != [] {
      var call := CallOf(policy, events[0]);
      var next := Step(protocol, g, call);
      StepKeepsInv(protocol, g, call);
      if next.removed {
        RemovedStays(protocol, next, CallsOf(policy, events[1..]));
      }
      var middle := EventKeepsCourse(protocol, world, policy, records, mine, g, p, origin, trail, events[0]);
      after := EventsKeepCourse(protocol, world, policy, records, mine, next, p, origin, middle, events[1..]);
      AtLeastTransitive(policy, after, middle, trail);
      if events[0].Confirmed? {
        OnwardOnward(world, policy, records, origin, middle, after, events[0].record);
      }
    }
  }

  // ----- the ascending pass ------------------------------------------------------------------

  /** A record for the same or an earlier epoch stays answered when the trail is retaken. */
  lemma {:induction false} StaysAnswered(world: Protocol, policy: Policy, origin: Place, trail: seq<Link>,
                                         earlier: Record, record: Record, after: seq<Link>)
    requires Retakes(world, policy, origin, trail, record, after)
    requires earlier.epoch <= record.epoch
    requires Answered(world, policy, origin, trail, earlier)
    ensures Answered(world, policy, origin, after, earlier)
  {
    var k := record.epoch - origin.branch.epoch;
    var j := earlier.epoch - origin.branch.epoch;
    if 0 <= j <= k {
      assert after[..j] == trail[..j];
      SameTip(origin, after, trail, j);
      if ValidAt(world, policy, origin, after, j, earlier) {
        assert j < |trail| && !BeatsAt(world, policy, origin, trail, j, earlier);
        if j == k && BeatsAt(world, policy, origin, after, j, earlier) {
          BeatsTransitive(LinkRank(policy, LinkAt(world, policy, origin, trail, j, earlier)),
                          LinkRank(policy, after[k]),
                          LinkRank(policy, trail[k]));
        }
      }
    }
  }

  ghost predicate Ascending(pass: seq<Record>) {
    forall i, j :: 0 <= i < j < |pass| ==> pass[i].epoch <= pass[j].epoch
  }

  /** The records delivered so far, and those only confirmed, are answered. */
  ghost predicate AnsweredTo(world: Protocol, policy: Policy, records: set<Record>, mine: set<Record>, origin: Place,
                             trail: seq<Link>, pass: seq<Record>, i: nat)
    requires i <= |pass|
  {
    && (forall r :: r in mine ==> AnsweredOnward(world, policy, records, origin, trail, r))
    && (forall j :: 0 <= j < i && pass[j] in records ==> Answered(world, policy, origin, trail, pass[j]))
  }

  lemma {:induction false} StayAnsweredTo(world: Protocol, policy: Policy, records: set<Record>, mine: set<Record>,
                                          origin: Place, trail: seq<Link>, pass: seq<Record>, i: nat, after: seq<Link>)
    requires Ascending(pass) && i < |pass|
    requires AnsweredTo(world, policy, records, mine, origin, trail, pass, i) && AtLeast(policy, after, trail)
    requires after == trail || Retakes(world, policy, origin, trail, pass[i], after)
    ensures AnsweredTo(world, policy, records, mine, origin, after, pass, i)
  {
    forall r | r in mine
      ensures AnsweredOnward(world, policy, records, origin, after, r)
    {
      OnwardOnward(world, policy, records, origin, trail, after, r);
    }
    forall j | 0 <= j < i && pass[j] in records
      ensures Answered(world, policy, origin, after, pass[j])
    {
      if after != trail {
        StaysAnswered(world, policy, origin, trail, pass[j], pass[i], after);
      }
    }
  }

  lemma {:induction false} PassStep(protocol: Protocol, world: Protocol, policy: Policy, records: set<Record>,
                                    mine: set<Record>, g: Group, p: nat, origin: Place, trail: seq<Link>,
                                    pass: seq<Record>, i: nat)
    returns (after: seq<Link>)
    requires Shared(policy, records, origin) && Reads(protocol, world, policy, records, mine)
    requires OnCourse(protocol, world, policy, records, g, p, origin, trail)
    requires Ascending(pass) && i < |pass| && (pass[i] in records || Unread(protocol, policy, pass[i]))
    requires AnsweredTo(world, policy, records, mine, origin, trail, pass, i)
    requires !ApplyCommit(protocol, policy, g, pass[i]).0.removed
    ensures OnCourse(protocol, world, policy, records, ApplyCommit(protocol, policy, g, pass[i]).0, p, origin, after)
    ensures AnsweredTo(world, policy, records, mine, origin, after, pass, i + 1)
  {
    after := ShownKeepsCourse(protocol, world, policy, records, mine, g, p, origin, trail, pass[i]);
    StayAnsweredTo(world, policy, records, mine, origin, trail, pass, i, after);
    assert AtLeast(policy, after, after);
  }

  /** A pass in ascending epoch order, from its place `i` on: all it delivered stays answered. */
  lemma {:induction false} PassAnswers(protocol: Protocol, world: Protocol, policy: Policy, records: set<Record>,
                                       mine: set<Record>, g: Group, p: nat, origin: Place, trail: seq<Link>,
                                       pass: seq<Record>, i: nat)
    returns (end: seq<Link>)
    requires Shared(policy, records, origin) && Reads(protocol, world, policy, records, mine)
    requires OnCourse(protocol, world, policy, records, g, p, origin, trail)
    requires Ascending(pass) && i <= |pass|
    requires forall r :: r in pass ==> r in records || Unread(protocol, policy, r)
    requires AnsweredTo(world, policy, records, mine, origin, trail, pass, i)
    requires !Deliver(protocol, policy, g, pass[i..]).0.removed
    ensures OnCourse(protocol, world, policy, records, Deliver(protocol, policy, g, pass[i..]).0, p, origin, end)
    ensures AnsweredTo(world, policy, records, mine, origin, end, pass, |pass|)
    decreases |pass| - i
  {
    end := trail;
    if i < |pass| {
      assert pass[i..][0] == pass[i] && pass[i..][1..] == pass[i + 1..];
      var next := ApplyCommit(protocol, policy, g, pass[i]).0;
      DeliverUnrolls(protocol, policy, g, pass[i..]);
      if next.removed {
        RemovedTakesNothing(protocol, policy, next, pass[i + 1..]);
      }
      var after := PassStep(protocol, world, policy, records, mine, g, p, origin, trail, pass, i);
      end := PassAnswers(protocol, world, policy, records, mine, next, p, origin, after, pass, i + 1);
    }
  }

  lemma {:induction false} AllAnsweredIsGreedy(world: Protocol, policy: Policy, records: set<Record>, mine: set<Record>,
                                               origin: Place, trail: seq<Link>, pass: seq<Record>)
    requires Sourced(world, policy, records, origin, trail)
    requires AnsweredTo(world, policy, records, mine, origin, trail, pass, |pass|)
    requires forall r :: r in records ==> r in pass
    ensures Greedy(world, policy, records, origin, trail)
  {
    forall r | r in records
      ensures Answered(world, policy, origin, trail, r)
    {
      var j :| 0 <= j < |pass| && pass[j] == r;
    }
  }

  // ----- convergence -------------------------------------------------------------------------

  /** A device: what it reads and what it can only confirm, its group, and the trail it is on from place `p`. */
  datatype Device = Device(protocol: Protocol, mine: set<Record>, g: Group, p: nat, trail: seq<Link>)

  /** The device after a run, and then after one pass over the commits. */
  function Ends(policy: Policy, d: Device, events: seq<Event>, pass: seq<Record>): Group {
    Deliver(d.protocol, policy, Run(d.protocol, d.g, CallsOf(policy, events)), pass).0
  }

  /**
   * The device sees all the commits: in any order and number during the run, once more in
   * ascending epochs in the pass. No commit removes it.
   */
  ghost predicate Sees(world: Protocol, policy: Policy, records: set<Record>, d: Device, events: seq<Event>,
                       pass: seq<Record>) {
    && Sound(d.protocol, d.g.owner)
    && Reads(d.protocol, world, policy, records, d.mine)
    && ((NoneOwn(events) && d.mine == {}) || Branching(world, policy, records))
    && AllFit(d.protocol, world, policy, records, d.g, events)
    && Ascending(pass) && (forall r :: r in pass <==> r in records)
    && !Ends(policy, d, events, pass).removed
  }

  /** The device has come from `origin` by published commits. */
  ghost predicate SetOut(world: Protocol, policy: Policy, records: set<Record>, origin: Place, d: Device) {
    OnCourse(d.protocol, world, policy, records, d.g, d.p, origin, d.trail)
  }

  ghost predicate OnTrailOf(d: Device, record: Record) {
    exists i :: 0 <= i < |d.trail| && d.trail[i].record == record
  }

  /**
   * The own commits a device never takes: it cannot read them back, does not hold them, and did
   * not confirm them, or was refused.
   */
  ghost function LostOwn(d: Device, events: seq<Event>): set<Record> {
    set r | r in d.mine && Confirmed(r) !in events && !OnTrailOf(d, r)
  }

  lemma {:induction false} NotRemovedBefore(protocol: Protocol, policy: Policy, g: Group, pass: seq<Record>)
    requires !Deliver(protocol, policy, g, pass).0.removed
    ensures !g.removed
  {
    if g.removed {
      RemovedTakesNothing(protocol, policy, g, pass);
    }
  }

  /** With every own commit confirmed or held, and shown what else it cannot read, a device ends on the greedy chain. */
  lemma {:induction false} EndsOnAll(protocol: Protocol, world: Protocol, policy: Policy, records: set<Record>,
                                     mine: set<Record>, g: Group, p: nat, origin: Place, trail: seq<Link>,
                                     events: seq<Event>, pass: seq<Record>)
    returns (end: seq<Link>)
    requires Shared(policy, records, origin) && Sound(protocol, g.owner)
    requires Reads(protocol, world, policy, records, mine) && (NoneOwn(events) || Branching(world, policy, records))
    requires OnCourse(protocol, world, policy, records, g, p, origin, trail)
    requires AllFit(protocol, world, policy, records, g, events)
    requires forall r :: r in mine ==>
               Confirmed(r) in events || AnsweredOnward(world, policy, records, origin, trail, r)
    requires Ascending(pass) && forall r :: r in pass ==> r in records || Unread(protocol, policy, r)
    requires forall r :: r in records ==> r in pass
    requires !Deliver(protocol, policy, Run(protocol, g, CallsOf(policy, events)), pass).0.removed
    ensures Greedy(world, policy, records, origin, end)
    ensures OnCourse(protocol, world, policy, records,
                     Deliver(protocol, policy, Run(protocol, g, CallsOf(policy, events)), pass).0, p, origin, end)
  {
    var middle := Run(protocol, g, CallsOf(policy, events));
    NotRemovedBefore(protocol, policy, middle, pass);
    var shown := EventsKeepCourse(protocol, world, policy, records, mine, g, p, origin, trail, events);
    forall r | r in mine
      ensures AnsweredOnward(world, policy, records, origin, shown, r)
    {
      if Confirmed(r) !in events {
        OnwardOnward(world, policy, records, origin, trail, shown, r);
      }
    }
    assert pass[0..] == pass;
    end := PassAnswers(protocol, world, policy, records, mine, middle, p, origin, shown, pass, 0);
    AllAnsweredIsGreedy(world, policy, records, mine, origin, end, pass);
  }

  lemma {:induction false} FewerFit(protocol: Protocol, world: Protocol, policy: Policy, records: set<Record>,
                                    lost: set<Record>, g: Group, events: seq<Event>)
    requires AllFit(protocol, world, policy, records, g, events)
    requires forall r :: r in lost && r in records ==> Unread(protocol, policy, r) && Confirmed(r) !in events
    ensures AllFit(protocol, world, policy, records - lost, g, events)
    decreases |events|
  {
    if events != [] {
      assert events[0] in events;
      FewerFit(protocol, world, policy, records, lost, Step(protocol, g, CallOf(policy, events[0])), events[1..]);
    }
  }

  lemma {:induction false} FewerBranching(world: Protocol, policy: Policy, records: set<Record>, fewer: set<Record>)
    requires Branching(world, policy, records) && fewer <= records
    ensures Branching(world, policy, fewer)
  {
    forall a, b | ValidLink(world, policy, fewer, a) && ValidLink(world, policy, fewer, b)
      ensures TellApart(a, b)
    {
      assert ValidLink(world, policy, records, a) && ValidLink(world, policy, records, b);
    }
  }

  /** Without what the device lost, it is a device that confirms or holds every own commit it cannot read. */
  lemma {:induction false} SetsOutWithoutLost(world: Protocol, policy: Policy, records: set<Record>, origin: Place,
                                              d: Device, events: seq<Event>)
    requires SetOut(world, policy, records, origin, d)
    requires (NoneOwn(events) && d.mine == {}) || Branching(world, policy, records)
    ensures var left := records - LostOwn(d, events);
            && OnCourse(d.protocol, world, policy, left, d.g, d.p, origin, d.trail)
            && forall r :: r in d.mine - LostOwn(d, events) ==>
                 Confirmed(r) in events || AnsweredOnward(world, policy, left, origin, d.trail, r)
  {
    var left := records - LostOwn(d, events);
    forall i | 0 <= i < |d.trail|
      ensures ValidLink(world, policy, left, d.trail[i])
    {
      assert ValidLink(world, policy, records, d.trail[i]) && OnTrailOf(d, d.trail[i].record);
    }
    forall r | r in d.mine - LostOwn(d, events) && Confirmed(r) !in events
      ensures AnsweredOnward(world, policy, left, origin, d.trail, r)
    {
      var k :| 0 <= k < |d.trail| && d.trail[k].record == r;
      FewerBranching(world, policy, records, left);
      TakenIsAnsweredOnward(world, policy, left, origin, d.trail, k);
    }
  }

  /**
   * Whatever order a set of commits comes in, with duplicates and own commits in between, one
   * more pass over them in ascending epoch order leaves the group on the greedy chain of all the
   * commits but those it lost.
   */
  lemma {:induction false} EndsOnGreedyChain(world: Protocol, policy: Policy, records: set<Record>, origin: Place,
                                             d: Device, events: seq<Event>, pass: seq<Record>)
    returns (end: seq<Link>)
    requires Shared(policy, records, origin)
    requires SetOut(world, policy, records, origin, d) && Sees(world, policy, records, d, events, pass)
    ensures var left := records - LostOwn(d, events);
            && Greedy(world, policy, left, origin, end)
            && OnCourse(d.protocol, world, policy, left, Ends(policy, d, events, pass), d.p, origin, end)
  {
    var lost := LostOwn(d, events);
    var left := records - lost;
    SetsOutWithoutLost(world, policy, records, origin, d, events);
    if Branching(world, policy, records) {
      FewerBranching(world, policy, records, left);
    }
    forall r | r in lost && r in records
      ensures Unread(d.protocol, policy, r)
    {
    }
    FewerFit(d.protocol, world, policy, records, lost, d.g, events);
    end := EndsOnAll(d.protocol, world, policy, left, d.mine - lost, d.g, d.p, origin, d.trail, events, pass);
  }

  // ----- the chain all devices end on, if any ------------------------------------------------

  /** Of the records valid at a place one is beaten by none. */
  lemma {:induction false} StrongestExists(world: Protocol, policy: Policy, at: Place, records: set<Record>)
    returns (best: Record)
    requires records != {} && forall r :: r in records ==> Settles(world, policy, at, r).Some?
    ensures best in records
    ensures forall r :: r in records ==>
              !Beats(RankIn(policy, r, Settles(world, policy, at, r).value),
                     RankIn(policy, best, Settles(world, policy, at, best).value))
    decreases |records|
  {
    var r :| r in records;
    var rank := RankIn(policy, r, Settles(world, policy, at, r).value);
    best := r;
    BeatsIrreflexive(rank);
    if records != {r} {
      var other := StrongestExists(world, policy, at, records - {r});
      var strongest := RankIn(policy, other, Settles(world, policy, at, other).value);
      if Beats(rank, strongest) {
        forall s | s in records - {r}
          ensures !Beats(RankIn(policy, s, Settles(world, policy, at, s).value), rank)
        {
          if Beats(RankIn(policy, s, Settles(world, policy, at, s).value), rank) {
            BeatsTransitive(RankIn(policy, s, Settles(world, policy, at, s).value), rank, strongest);
          }
        }
      } else {
        best := other;
      }
    }
  }

  /** Answered, or for an epoch past the trail. */
  ghost predicate AnsweredSoFar(world: Protocol, policy: Policy, records: set<Record>, origin: Place,
                                trail: seq<Link>) {
    forall r :: r in records && r.epoch < origin.branch.epoch + |trail| ==> Answered(world, policy, origin, trail, r)
  }

  /** A trail goes on with the strongest record valid at its end. */
  lemma {:induction false} GreedyStep(world: Protocol, policy: Policy, records: set<Record>, origin: Place,
                                      trail: seq<Link>)
    returns (longer: seq<Link>)
    requires Sourced(world, policy, records, origin, trail) && AnsweredSoFar(world, policy, records, origin, trail)
    ensures Sourced(world, policy, records, origin, longer) && AnsweredSoFar(world, policy, records, origin, longer)
    ensures longer == trail ==> forall r :: r in records ==> !ValidAt(world, policy, origin, trail, |trail|, r)
    ensures longer != trail ==>
              |longer| == |trail| + 1 && longer[|trail|].record in records
              && longer[|trail|].record.epoch == origin.branch.epoch + |trail|
  {
    var at := Tip(origin, trail, |trail|);
    var valid := set r | r in records && Settles(world, policy, at, r).Some?;
    longer := trail;
    if valid != {} {
      var best := StrongestExists(world, policy, at, valid);
      var link := LinkAt(world, policy, origin, trail, |trail|, best);
      TipEpoch(origin, trail, |trail|);
      assert trail[..|trail|] == trail;
      CutLinked(origin, trail, |trail|, link);
      SourcedOn(world, policy, records, origin, trail, link);
      longer := trail + [link];
      forall r | r in records && r.epoch < origin.branch.epoch + |longer|
        ensures Answered(world, policy, origin, longer, r)
      {
        LongerAnswers(world, policy, origin, trail, link, r);
      }
      assert |longer| > |trail|;
    } else {
      assert forall r :: r in records ==> r !in valid;
    }
  }

  lemma {:induction false} LongerAnswers(world: Protocol, policy: Policy, origin: Place, trail: seq<Link>, link: Link,
                                         record: Record)
    requires record.epoch < origin.branch.epoch + |trail| ==> Answered(world, policy, origin, trail, record)
    requires record.epoch == origin.branch.epoch + |trail| && ValidAt(world, policy, origin, trail, |trail|, record) ==>
               !Beats(LinkRank(policy, LinkAt(world, policy, origin, trail, |trail|, record)), LinkRank(policy, link))
    requires record.epoch <= origin.branch.epoch + |trail|
    ensures Answered(world, policy, origin, trail + [link], record)
  {
    var k := record.epoch - origin.branch.epoch;
    if 0 <= k <= |trail| {
      assert (trail + [link])[..k] == trail[..k];
      SameTip(origin, trail + [link], trail, k);
    }
  }

  lemma {:induction false} GreedyFrom(world: Protocol, policy: Policy, records: set<Record>, origin: Place,
                                      trail: seq<Link>, room: nat)
    returns (best: seq<Link>)
    requires Sourced(world, policy, records, origin, trail) && AnsweredSoFar(world, policy, records, origin, trail)
    requires forall r :: r in records ==> r.epoch < origin.branch.epoch + |trail| + room
    ensures Greedy(world, policy, records, origin, best)
    decreases room
  {
    best := GreedyStep(world, policy, records, origin, trail);
    if best != trail {
      best := GreedyFrom(world, policy, records, origin, best, room - 1);
    } else {
      TipEpoch(origin, trail, |trail|);
    }
  }

  /** A set of commits has a greedy chain. */
  lemma {:induction false} GreedyExists(world: Protocol, policy: Policy, records: set<Record>, origin: Place)
    returns (best: seq<Link>)
    requires InWindow(records, origin)
    ensures Greedy(world, policy, records, origin, best)
  {
    best := GreedyFrom(world, policy, records, origin, [], RETAINED_EPOCHS);
  }

  /** The trail holds none of these commits. */
  ghost predicate Avoids(trail: seq<Link>, lost: set<Record>) {
    forall i :: 0 <= i < |trail| ==> trail[i].record !in lost
  }

  lemma {:induction false} GreedyWithout(world: Protocol, policy: Policy, records: set<Record>, lost: set<Record>,
                                         origin: Place, best: seq<Link>, end: seq<Link>)
    requires UniqueIds(records)
    requires Greedy(world, policy, records, origin, best) && Greedy(world, policy, records - lost, origin, end)
    ensures end == best <==> Avoids(best, lost)
  {
    if end == best {
      forall i | 0 <= i < |best|
        ensures best[i].record !in lost
      {
        assert ValidLink(world, policy, records - lost, end[i]);
      }
    }
    if Avoids(best, lost) {
      forall i | 0 <= i < |best|
        ensures ValidLink(world, policy, records - lost, best[i])
      {
        assert ValidLink(world, policy, records, best[i]);
      }
      GreedyIsUnique(world, policy, records - lost, origin, end, best);
    }
  }

  lemma {:induction false} SourcedAmong(world: Protocol, policy: Policy, fewer: set<Record>, records: set<Record>,
                                        origin: Place, trail: seq<Link>)
    requires Sourced(world, policy, fewer, origin, trail) && fewer <= records
    ensures Sourced(world, policy, records, origin, trail)
  {
    forall i | 0 <= i < |trail|
      ensures ValidLink(world, policy, records, trail[i])
    {
      assert ValidLink(world, policy, fewer, trail[i]);
    }
  }

  lemma {:induction false} SameRecordsSameTrail(world: Protocol, policy: Policy, records: set<Record>, origin: Place,
                                                one: seq<Link>, other: seq<Link>, k: nat)
    requires Sourced(world, policy, records, origin, one) && Sourced(world, policy, records, origin, other)
    requires k <= |one| && k <= |other| && forall i :: 0 <= i < k ==> one[i].record == other[i].record
    ensures one[..k] == other[..k]
  {
    if k > 0 {
      SameRecordsSameTrail(world, policy, records, origin, one, other, k - 1);
      SourcedAt(world, policy, records, origin, one, k - 1);
      SourcedAt(world, policy, records, origin, other, k - 1);
      SameTip(origin, one, other, k - 1);
      assert one[..k] == one[..k - 1] + [one[k - 1]] && other[..k] == other[..k - 1] + [other[k - 1]];
    }
  }

  /** Trails that end in one branch are one trail. */
  lemma {:induction false} OneBranchOneTrail(world: Protocol, policy: Policy, records: set<Record>, origin: Place,
                                             one: seq<Link>, other: seq<Link>)
    requires Branching(world, policy, records)
    requires Sourced(world, policy, records, origin, one) && Sourced(world, policy, records, origin, other)
    requires Tip(origin, one, |one|).branch == Tip(origin, other, |other|).branch
    ensures one == other
  {
    TipEpoch(origin, one, |one|);
    TipEpoch(origin, other, |other|);
    forall i | 0 <= i < |one|
      ensures one[i].record == other[i].record
    {
      if one[i].record != other[i].record {
        PartedStayApart(world, policy, records, origin, one, other, i, |one|);
      }
    }
    SameRecordsSameTrail(world, policy, records, origin, one, other, |one|);
    assert one[..|one|] == one && other[..|other|] == other;
  }

  /** The device ends on the chain of the strongest commits exactly if none of those is one it lost. */
  lemma {:induction false} EndsOnGreedyExactly(world: Protocol, policy: Policy, records: set<Record>, origin: Place,
                                               d: Device, events: seq<Event>, pass: seq<Record>)
    returns (best: seq<Link>, end: seq<Link>)
    requires Shared(policy, records, origin)
    requires SetOut(world, policy, records, origin, d) && Sees(world, policy, records, d, events, pass)
    ensures Greedy(world, policy, records, origin, best)
    ensures OnCourse(d.protocol, world, policy, records, Ends(policy, d, events, pass), d.p, origin, end)
    ensures Greedy(world, policy, records - LostOwn(d, events), origin, end)
    ensures end == best <==> Avoids(best, LostOwn(d, events))
  {
    best := GreedyExists(world, policy, records, origin);
    end := EndsOnGreedyChain(world, policy, records, origin, d, events, pass);
    GreedyWithout(world, policy, records, LostOwn(d, events), origin, best, end);
    SourcedAmong(world, policy, records - LostOwn(d, events), records, origin, end);
  }

  lemma {:induction false} SameTrailSameChain(one: Group, p: nat, other: Group, q: nat, origin: Place, trail: seq<Link>)
    requires Follows(one, p, origin, trail) && Follows(other, q, origin, trail)
    ensures one.state.At() == other.state.At() && one.bound == other.bound
    ensures ChainOf(one)[p..] == ChainOf(other)[q..]
  {
    forall i | 0 <= i < |trail|
      ensures ChainOf(one)[p..][i] == ChainOf(other)[q..][i]
    {
      assert FollowsAt(one, p, trail, i) && FollowsAt(other, q, trail, i);
    }
  }

  /** Two groups in one branch and frontier by one chain from these places on. */
  ghost predicate Agree(one: Group, p: nat, other: Group, q: nat) {
    && one.state.At() == other.state.At() && one.bound == other.bound
    && p <= |one.applied| && q <= |other.applied| && ChainOf(one)[p..] == ChainOf(other)[q..]
  }

  /** When neither device lost what the other did, a chain greedy for both is greedy for all. */
  lemma {:induction false} GreedyForBoth(world: Protocol, policy: Policy, records: set<Record>, lost1: set<Record>,
                                         lost2: set<Record>, origin: Place, end: seq<Link>)
    requires lost1 !! lost2
    requires Greedy(world, policy, records - lost1, origin, end) && Greedy(world, policy, records - lost2, origin, end)
    ensures Greedy(world, policy, records, origin, end) && Avoids(end, lost1 + lost2)
  {
    SourcedAmong(world, policy, records - lost1, records, origin, end);
    forall r | r in records
      ensures Answered(world, policy, origin, end, r)
    {
      assert r in records - lost1 || r in records - lost2;
    }
    forall i | 0 <= i < |end|
      ensures end[i].record !in lost1 + lost2
    {
      assert ValidLink(world, policy, records - lost1, end[i]) && ValidLink(world, policy, records - lost2, end[i]);
    }
  }

  lemma {:induction false} SameEndsExactly(world: Protocol, policy: Policy, records: set<Record>, lost1: set<Record>,
                                           lost2: set<Record>, origin: Place, best: seq<Link>, end1: seq<Link>,
                                           end2: seq<Link>)
    requires UniqueIds(records) && Greedy(world, policy, records, origin, best)
    requires Greedy(world, policy, records - lost1, origin, end1)
    requires Greedy(world, policy, records - lost2, origin, end2)
    ensures Avoids(best, lost1 + lost2) ==> end1 == best && end2 == best
    ensures lost1 !! lost2 && end1 == end2 ==> Avoids(best, lost1 + lost2)
  {
    GreedyWithout(world, policy, records, lost1, origin, best, end1);
    GreedyWithout(world, policy, records, lost2, origin, best, end2);
    if lost1 !! lost2 && end1 == end2 {
      GreedyForBoth(world, policy, records, lost1, lost2, origin, end1);
      GreedyIsUnique(world, policy, records, origin, best, end1);
    }
  }

  lemma {:induction false} NoneOwnNoneLost(d: Device, events: seq<Event>)
    requires d.mine == {}
    ensures LostOwn(d, events) == {}
  {
  }

  /**
   * Devices that set out from one branch with one frontier, wherever they are by now and whatever
   * they did before, end in one branch exactly if neither lost an own commit that is one of the
   * strongest; they then agree on the frontier and on the chain of commits.
   */
  lemma {:induction false} DevicesConverge(world: Protocol, policy: Policy, records: set<Record>, origin: Place,
                                           one: Device, events1: seq<Event>, pass1: seq<Record>, other: Device,
                                           events2: seq<Event>, pass2: seq<Record>)
    returns (best: seq<Link>)
    requires Shared(policy, records, origin)
    requires SetOut(world, policy, records, origin, one) && Sees(world, policy, records, one, events1, pass1)
    requires SetOut(world, policy, records, origin, other) && Sees(world, policy, records, other, events2, pass2)
    ensures Greedy(world, policy, records, origin, best)
    ensures var end1, end2 := Ends(policy, one, events1, pass1), Ends(policy, other, events2, pass2);
            && (end1.state.At() == end2.state.At() ==> Agree(end1, one.p, end2, other.p))
            && (Avoids(best, LostOwn(one, events1) + LostOwn(other, events2)) ==> end1.state.At() == end2.state.At())
            && (one.mine !! other.mine && end1.state.At() == end2.state.At() ==>
                  Avoids(best, LostOwn(one, events1) + LostOwn(other, events2)))
  {
    var trail1, trail2, again;
    best, trail1 := EndsOnGreedyExactly(world, policy, records, origin, one, events1, pass1);
    again, trail2 := EndsOnGreedyExactly(world, policy, records, origin, other, events2, pass2);
    var end1, end2 := Ends(policy, one, events1, pass1), Ends(policy, other, events2, pass2);
    SameEndsExactly(world, policy, records, LostOwn(one, events1), LostOwn(other, events2), origin, best, trail1,
                    trail2);
    if one.mine == {} && other.mine == {} {
      NoneOwnNoneLost(one, events1);
      NoneOwnNoneLost(other, events2);
    } else if end1.state.At() == end2.state.At() {
      OneBranchOneTrail(world, policy, records, origin, trail1, trail2);
    }
    if trail1 == trail2 {
      SameTrailSameChain(end1, one.p, end2, other.p, origin, trail1);
    }
  }

  /** A device as it is now, whatever it did before. */
  function AsItIs(protocol: Protocol, mine: set<Record>, g: Group): Device {
    Device(protocol, mine, g, |g.applied|, [])
  }

  /** The own commits a device cannot read back and did not confirm in the run. */
  ghost function Unconfirmed(d: Device, events: seq<Event>): set<Record> {
    set r | r in d.mine && Confirmed(r) !in events
  }

  /**
   * So do any two devices now in one branch with one frontier, however each got there. What they
   * can lose are the own commits not confirmed on the way.
   */
  lemma {:induction false} SameBranchConverge(world: Protocol, policy: Policy, records: set<Record>, one: Device,
                                              events1: seq<Event>, pass1: seq<Record>, other: Device,
                                              events2: seq<Event>, pass2: seq<Record>)
    returns (best: seq<Link>)
    requires one == AsItIs(one.protocol, one.mine, one.g) && other == AsItIs(other.protocol, other.mine, other.g)
    requires !one.g.removed && Inv(one.protocol, one.g) && !other.g.removed && Inv(other.protocol, other.g)
    requires one.g.state.At() == other.g.state.At() && one.g.bound == other.g.bound
    requires Shared(policy, records, Place(one.g.state.At(), one.g.bound))
    requires Sees(world, policy, records, one, events1, pass1) && Sees(world, policy, records, other, events2, pass2)
    ensures Greedy(world, policy, records, Place(one.g.state.At(), one.g.bound), best)
    ensures var end1, end2 := Ends(policy, one, events1, pass1), Ends(policy, other, events2, pass2);
            var unconfirmed := Unconfirmed(one, events1) + Unconfirmed(other, events2);
            && (end1.state.At() == end2.state.At() ==> Agree(end1, one.p, end2, other.p))
            && (Avoids(best, unconfirmed) ==> end1.state.At() == end2.state.At())
            && (one.mine !! other.mine && end1.state.At() == end2.state.At() ==> Avoids(best, unconfirmed))
  {
    assert LostOwn(one, events1) == Unconfirmed(one, events1) && LostOwn(other, events2) == Unconfirmed(other, events2);
    best := DevicesConverge(world, policy, records, Place(one.g.state.At(), one.g.bound), one, events1, pass1, other,
                            events2, pass2);
  }
}

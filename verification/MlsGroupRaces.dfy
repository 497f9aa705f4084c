/** Commit races under a fixed policy: the trail of commits behind a chain, and how each delivery moves it. */
module MlsGroupRaces {
  import opened Prelude
  import opened MlsGroupModel
  import opened MlsGroupInvariant
  import opened MlsGroupRetake

  // ----- the order of rivals -----------------------------------------------------------------

  lemma {:induction false} BeatsIrreflexive(a: Rank)
    ensures !Beats(a, a)
  {
    LessIrreflexive(a.id);
  }

  lemma {:induction false} BeatsTransitive(a: Rank, b: Rank, c: Rank)
    requires Beats(a, b) && Beats(b, c)
    ensures Beats(a, c)
  {
    if a.stands == b.stands == c.stands && a.reach == b.reach == c.reach && a.priority == b.priority == c.priority {
      LessTransitive(a.id, b.id, c.id);
    }
  }

  lemma {:induction false} BeatsTotal(a: Rank, b: Rank)
    ensures Beats(a, b) || Beats(b, a) || a == b
  {
    LessTotal(a.id, b.id);
  }

  lemma {:induction false} BeatsAsymmetric(a: Rank, b: Rank)
    requires Beats(a, b)
    ensures !Beats(b, a)
  {
    if Beats(b, a) {
      BeatsTransitive(a, b, a);
      BeatsIrreflexive(a);
    }
  }

  // ----- what a record makes of a place ------------------------------------------------------

  /** Where a commit can be taken: a branch, and the frontier bound there. */
  datatype Place = Place(branch: Branch, bound: Frontier)

  datatype Settlement = Settlement(change: Change, frontier: Frontier, next: Branch) {
    function To(): Place {
      Place(next, frontier)
    }
  }

  /** What a record makes of its epoch at a place, when it is valid there. */
  function Settles(protocol: Protocol, policy: Policy, at: Place, record: Record): Option<Settlement> {
    match protocol.readCommit(record.bytes)
    case None => None
    case Some(commit) =>
      if commit.epoch != record.epoch || at.branch.epoch != record.epoch then None
      else
        match protocol.process(at.branch, commit)
        case Judged(change, Some(settled)) =>
          if settled.committerKept && Permits(policy, change, commit.frontier, at.bound)
          then Some(Settlement(change, commit.frontier, Branch(at.branch.epoch + 1, settled.authenticator)))
          else None
        case _ => None
  }

  function RankIn(policy: Policy, record: Record, made: Settlement): Rank {
    RankOf(policy, record.id, made.change, made.frontier)
  }

  ghost predicate NothingHeld(policy: Policy) {
    forall c, f :: !policy.withheld(c, f)
  }

  /** The place and rival a contested record is judged at. */
  ghost function PlaceAt(g: Group, record: Record): Place
    requires Contested(g, record)
  {
    Place(FromAt(g, record).At(), BaselineAt(g, record))
  }

  /** What a judgement accepts: what settles there, withholds nothing and beats its rival. */
  lemma {:induction false} AcceptsSettling(protocol: Protocol, policy: Policy, witnesses: seq<(CommitId, Witness)>,
                                           record: Record, from: ClientState, baseline: Frontier,
                                           rival: Option<AppliedEpoch>)
    requires from.epoch == record.epoch
    ensures var judged := Judge(protocol, policy, witnesses, record, from, baseline, rival);
            var made := Settles(protocol, policy, Place(from.At(), baseline), record);
            && (judged.Accepted? <==>
                  && !Waiting(policy, witnesses) && made.Some?
                  && !policy.withheld(made.value.change.committer, made.value.frontier)
                  && (rival.Some? ==> Wins(policy, record.id, made.value.change, made.value.frontier, rival.value)))
            && (judged.Accepted? ==> made == Some(Settlement(judged.change, judged.frontier, judged.next)))
  {
    var read := protocol.readCommit(record.bytes);
    if read.Some? {
      var processed := protocol.process(from.At(), read.value);
      if processed.Judged? && policy.withheld(processed.change.committer, read.value.frontier) {
        SetKeepsWaiting(policy, witnesses, record.id,
                        Witness(processed.change.committer, record.epoch, read.value.frontier));
      }
    }
  }

  /** The outcome of a record that moved the group forward. */
  ghost predicate Took(outcome: Outcome) {
    outcome.Applied? || outcome.Replaced? || outcome.Removed?
  }

  /**
   * A record moves the group forward exactly if its epoch is open to it, the group does not
   * wait, it is valid at its place, withholds nothing, and beats the commit it would replace.
   */
  lemma {:induction false} TakesExactly(protocol: Protocol, policy: Policy, g: Group, record: Record)
    requires Inv(protocol, g) && !g.removed
    ensures Took(ApplyCommit(protocol, policy, g, record).1)
            <==> && Contested(g, record) && !Waiting(policy, g.witnesses)
                 && var made := Settles(protocol, policy, PlaceAt(g, record), record);
                    && made.Some? && !policy.withheld(made.value.change.committer, made.value.frontier)
                    && (RivalAt(g, record).Some? ==>
                          Wins(policy, record.id, made.value.change, made.value.frontier, RivalAt(g, record).value))
  {
    if !Contested(g, record) {
      UncontestedChangesNothing(protocol, policy, g, record);
    } else {
      ContestedShape(protocol, policy, g, record);
      AcceptsSettling(protocol, policy, g.witnesses, record, FromAt(g, record), BaselineAt(g, record),
                      RivalAt(g, record));
    }
  }

  // ----- trails ------------------------------------------------------------------------------

  /** A commit taken: its record, where it was taken, what it made. */
  datatype Link = Link(record: Record, at: Place, made: Settlement)

  /** Where the first `k` links of a trail lead. */
  function Tip(origin: Place, trail: seq<Link>, k: nat): Place
    requires k <= |trail|
  {
    if k == 0 then origin else trail[k - 1].made.To()
  }

  ghost predicate LinkedAt(origin: Place, trail: seq<Link>, i: nat)
    requires i < |trail|
  {
    && trail[i].at == Tip(origin, trail, i)
    && trail[i].record.epoch == trail[i].at.branch.epoch
    && trail[i].made.next.epoch == trail[i].at.branch.epoch + 1
  }

  /** Each link is taken where the ones before it lead. */
  ghost predicate Linked(origin: Place, trail: seq<Link>) {
    forall i :: 0 <= i < |trail| ==> LinkedAt(origin, trail, i)
  }

  lemma {:induction false} TipEpoch(origin: Place, trail: seq<Link>, i: nat)
    requires Linked(origin, trail) && i <= |trail|
    ensures Tip(origin, trail, i).branch.epoch == origin.branch.epoch + i
    ensures i < |trail| ==> trail[i].record.epoch == origin.branch.epoch + i
  {
    if i > 0 {
      TipEpoch(origin, trail, i - 1);
      assert LinkedAt(origin, trail, i - 1);
    }
    if i < |trail| {
      assert LinkedAt(origin, trail, i);
    }
  }

  lemma {:induction false} CutLinked(origin: Place, trail: seq<Link>, k: nat, link: Link)
    requires Linked(origin, trail) && k <= |trail|
    requires link.at == Tip(origin, trail, k)
    requires link.record.epoch == link.at.branch.epoch && link.made.next.epoch == link.at.branch.epoch + 1
    ensures Linked(origin, trail[..k] + [link])
  {
    var longer := trail[..k] + [link];
    forall i | 0 <= i < |longer|
      ensures LinkedAt(origin, longer, i)
    {
      assert Tip(origin, longer, i) == Tip(origin, trail, i);
      if i < k {
        assert LinkedAt(origin, trail, i);
      }
    }
  }

  ghost predicate FollowsAt(g: Group, p: nat, trail: seq<Link>, i: nat)
    requires i < |trail| && p + i < |g.applied|
  {
    var entry := g.applied[p + i].1;
    && entry.commitId == trail[i].record.id
    && entry.change == trail[i].made.change
    && entry.frontier == trail[i].made.frontier
    && entry.baseline == trail[i].at.bound
    && (entry.before.Some? ==> entry.before.value.At() == trail[i].at.branch)
  }

  /** The commits the group recorded from place `p` on are exactly this trail. */
  ghost predicate Follows(g: Group, p: nat, origin: Place, trail: seq<Link>) {
    && |g.applied| == p + |trail|
    && Tip(origin, trail, |trail|) == Place(g.state.At(), g.bound)
    && forall i :: 0 <= i < |trail| ==> FollowsAt(g, p, trail, i)
  }

  /** A group in this device's hands whose chain from place `p` on is this trail. */
  ghost predicate OnTrail(protocol: Protocol, g: Group, p: nat, origin: Place, trail: seq<Link>) {
    && !g.removed && Inv(protocol, g)
    && Linked(origin, trail)
    && Follows(g, p, origin, trail)
  }

  lemma {:induction false} OnTrailBase(protocol: Protocol, g: Group, p: nat, origin: Place, trail: seq<Link>)
    requires OnTrail(protocol, g, p, origin, trail)
    ensures Base(g) + p == origin.branch.epoch && g.state.epoch == origin.branch.epoch + |trail|
  {
    TipEpoch(origin, trail, |trail|);
  }

  /** Every state from place `p` on is kept. */
  ghost predicate KeptFrom(g: Group, p: nat) {
    forall i :: p <= i < |g.applied| ==> g.applied[i].1.before.Some?
  }

  /** The trail a group is on from any place it keeps every state from, whoever made its commits. */
  ghost function TrailOf(g: Group, p: nat): (trail: seq<Link>)
    requires p <= |g.applied| && KeptFrom(g, p) && KeptSuffix(g)
    ensures |trail| == |g.applied| - p
  {
    seq(|g.applied| - p, i requires 0 <= i < |g.applied| - p => LinkOf(g, p + i))
  }

  ghost function LinkOf(g: Group, i: nat): Link
    requires i < |g.applied| && KeptSuffix(g) && g.applied[i].1.before.Some?
  {
    var entry := g.applied[i].1;
    Link(Record(entry.commitId, g.applied[i].0, []), Place(entry.before.value.At(), entry.baseline),
         Settlement(entry.change, entry.frontier, BranchAfter(g, i)))
  }

  ghost function OriginOf(g: Group, p: nat): Place
    requires p <= |g.applied| && KeptFrom(g, p) && KeptSuffix(g)
  {
    if p < |g.applied| then LinkOf(g, p).at else Place(g.state.At(), g.bound)
  }

  lemma {:induction false} TrailOfTip(protocol: Protocol, g: Group, p: nat, k: nat)
    requires !g.removed && Chained(protocol, g) && p <= |g.applied| && KeptFrom(g, p) && k <= |g.applied| - p
    ensures Tip(OriginOf(g, p), TrailOf(g, p), k)
            == if p + k < |g.applied| then LinkOf(g, p + k).at else Place(g.state.At(), g.bound)
  {
    if k > 0 {
      assert TrailOf(g, p)[k - 1] == LinkOf(g, p + k - 1);
      if p + k < |g.applied| {
        assert StepsFromLast(g, p + k);
      }
    }
  }

  /** Every group is on such a trail, over any history and under any policy. */
  lemma {:induction false} EveryGroupOnTrail(protocol: Protocol, g: Group, p: nat)
    requires !g.removed && Inv(protocol, g) && p <= |g.applied| && KeptFrom(g, p)
    ensures OnTrail(protocol, g, p, OriginOf(g, p), TrailOf(g, p))
  {
    var origin, trail := OriginOf(g, p), TrailOf(g, p);
    TrailOfTip(protocol, g, p, |trail|);
    forall i | 0 <= i < |trail|
      ensures LinkedAt(origin, trail, i) && FollowsAt(g, p, trail, i)
    {
      TrailOfTip(protocol, g, p, i);
    }
  }

  // ----- one delivery ------------------------------------------------------------------------

  /** The record is valid at place `k` of the trail. */
  ghost predicate ValidAt(protocol: Protocol, policy: Policy, origin: Place, trail: seq<Link>, k: nat, record: Record)
    requires k <= |trail|
  {
    Settles(protocol, policy, Tip(origin, trail, k), record).Some?
  }

  function LinkAt(protocol: Protocol, policy: Policy, origin: Place, trail: seq<Link>, k: nat, record: Record): Link
    requires k <= |trail| && Settles(protocol, policy, Tip(origin, trail, k), record).Some?
  {
    var at := Tip(origin, trail, k);
    Link(record, at, Settles(protocol, policy, at, record).value)
  }

  function LinkRank(policy: Policy, link: Link): Rank {
    RankIn(policy, link.record, link.made)
  }

  /** The record beats the one taken at place `k` of the trail. */
  ghost predicate BeatsAt(protocol: Protocol, policy: Policy, origin: Place, trail: seq<Link>, k: nat, record: Record)
    requires k < |trail| && ValidAt(protocol, policy, origin, trail, k, record)
  {
    Beats(LinkRank(policy, LinkAt(protocol, policy, origin, trail, k, record)), LinkRank(policy, trail[k]))
  }

  /** `after` is the trail with `record` taken at its place, over a weaker rival or at the end. */
  ghost predicate Retakes(protocol: Protocol, policy: Policy, origin: Place, trail: seq<Link>, record: Record,
                          after: seq<Link>)
  {
    var k := record.epoch - origin.branch.epoch;
    && 0 <= k <= |trail| && ValidAt(protocol, policy, origin, trail, k, record)
    && after == trail[..k] + [LinkAt(protocol, policy, origin, trail, k, record)]
    && (k < |trail| ==> BeatsAt(protocol, policy, origin, trail, k, record))
  }

  /** The record's place in the trail is where its state and baseline come from. */
  lemma {:induction false} PlaceOf(protocol: Protocol, g: Group, p: nat, origin: Place, trail: seq<Link>,
                                   record: Record)
    requires OnTrail(protocol, g, p, origin, trail)
    requires Contested(g, record) && record.epoch >= origin.branch.epoch
    ensures var k := record.epoch - origin.branch.epoch;
            && k <= |trail| && record.epoch - Base(g) == p + k
            && PlaceAt(g, record) == Tip(origin, trail, k)
            && FromAt(g, record).epoch == record.epoch
  {
    var k := record.epoch - origin.branch.epoch;
    OnTrailBase(protocol, g, p, origin, trail);
    if k < |trail| {
      assert FollowsAt(g, p, trail, k) && LinkedAt(origin, trail, k);
    }
  }

  lemma {:induction false} FollowsTook(g: Group, p: nat, origin: Place, trail: seq<Link>, k: nat, taken: AppliedEpoch,
                                       link: Link)
    requires Contiguously(g) && Follows(g, p, origin, trail) && k <= |trail|
    requires taken == AppliedEpoch(link.record.id, taken.before, link.at.bound, link.made.frontier, link.made.change)
    requires taken.before.Some? && taken.before.value.At() == link.at.branch
    ensures Follows(TookAt(g, p + k, taken, link.made.next), p, origin, trail[..k] + [link])
  {
    var next, after := link.made.next, trail[..k] + [link];
    var g' := TookAt(g, p + k, taken, next);
    ResumedBranch(g.resumable, ClientState(next.epoch, next.authenticator, 0));
    TookEntries(g, p + k, taken, next);
    forall i | 0 <= i < |after|
      ensures FollowsAt(g', p, after, i)
    {
      if i < k {
        assert FollowsAt(g, p, trail, i) && after[i] == trail[i];
      }
    }
  }

  ghost predicate Changed(outcome: Outcome) {
    outcome.Applied? || outcome.Replaced?
  }

  /** An accepted record puts its link at its place. */
  lemma {:induction false} AcceptedRetrails(protocol: Protocol, policy: Policy, g: Group, p: nat, origin: Place,
                                            trail: seq<Link>, record: Record, judged: Judgement)
    returns (after: seq<Link>)
    requires OnTrail(protocol, g, p, origin, trail)
    requires Contested(g, record) && record.epoch >= origin.branch.epoch
    requires judged == JudgedAt(protocol, policy, g, record) && judged.Accepted?
    ensures Retakes(protocol, policy, origin, trail, record, after)
    ensures Linked(origin, after)
    ensures Follows(TookAt(g, record.epoch - Base(g), EntryAt(g, record, judged.change, judged.frontier), judged.next),
                    p, origin, after)
  {
    PlaceOf(protocol, g, p, origin, trail, record);
    AcceptsSettling(protocol, policy, g.witnesses, record, FromAt(g, record), BaselineAt(g, record),
                    RivalAt(g, record));
    var k := record.epoch - origin.branch.epoch;
    var link := LinkAt(protocol, policy, origin, trail, k, record);
    after := trail[..k] + [link];
    CutLinked(origin, trail, k, link);
    FollowsTook(g, p, origin, trail, k, EntryAt(g, record, judged.change, judged.frontier), link);
    RivalIsBeaten(policy, g, p, origin, trail, k, record, link);
  }

  lemma {:induction false} RivalIsBeaten(policy: Policy, g: Group, p: nat, origin: Place, trail: seq<Link>, k: nat,
                                         record: Record, link: Link)
    requires Contested(g, record) && Follows(g, p, origin, trail) && k <= |trail| && record.epoch - Base(g) == p + k
    requires link.record == record
    requires RivalAt(g, record).Some? ==>
               Wins(policy, record.id, link.made.change, link.made.frontier, RivalAt(g, record).value)
    ensures k < |trail| ==> Beats(LinkRank(policy, link), LinkRank(policy, trail[k]))
  {
    if k < |trail| {
      assert FollowsAt(g, p, trail, k);
    }
  }

  lemma {:induction false} HoldsNothing(protocol: Protocol, policy: Policy, g: Group, record: Record)
    requires NothingHeld(policy) && Contested(g, record)
    ensures !JudgedAt(protocol, policy, g, record).Held?
  {
  }

  /**
   * With nothing withheld, a delivery changes the chain exactly by putting the record at its
   * place, over a weaker rival or at the end, unless it removes this device.
   */
  lemma {:induction false} DeliveryRetrails(protocol: Protocol, policy: Policy, g: Group, p: nat, origin: Place,
                                            trail: seq<Link>, record: Record)
    returns (after: seq<Link>)
    requires OnTrail(protocol, g, p, origin, trail)
    requires NothingHeld(policy) && record.epoch >= origin.branch.epoch
    ensures var (next, outcome) := ApplyCommit(protocol, policy, g, record);
            && (!next.removed ==> OnTrail(protocol, next, p, origin, after))
            && (Changed(outcome) ==> !next.removed && Retakes(protocol, policy, origin, trail, record, after))
            && (!next.removed && !Changed(outcome) ==> next == g && after == trail)
  {
    ApplyKeepsInv(protocol, policy, g, record);
    if Contested(g, record) {
      after := ContestedRetrails(protocol, policy, g, p, origin, trail, record);
    } else {
      after := trail;
      UncontestedChangesNothing(protocol, policy, g, record);
    }
  }

  /** A judgement that holds nothing back takes the record, removes this device, or changes nothing. */
  lemma {:induction false} FaresOut(protocol: Protocol, policy: Policy, g: Group, record: Record, judged: Judgement)
    requires Contested(g, record) && !judged.Held?
    ensures var (next, outcome) := Fares(protocol, policy, g, record, judged);
            if !judged.Accepted? then next == g && !Changed(outcome)
            else if protocol.active(judged.next)
            then && next == TookAt(g, record.epoch - Base(g), EntryAt(g, record, judged.change, judged.frontier),
                                   judged.next)
                 && !next.removed && Changed(outcome)
            else next.removed && !Changed(outcome)
  {
  }

  lemma {:induction false} ContestedRetrails(protocol: Protocol, policy: Policy, g: Group, p: nat, origin: Place,
                                             trail: seq<Link>, record: Record)
    returns (after: seq<Link>)
    requires OnTrail(protocol, g, p, origin, trail) && Contested(g, record)
    requires NothingHeld(policy) && record.epoch >= origin.branch.epoch
    ensures var (next, outcome) := ApplyCommit(protocol, policy, g, record);
            && (!next.removed ==> Linked(origin, after) && Follows(next, p, origin, after))
            && (Changed(outcome) ==> !next.removed && Retakes(protocol, policy, origin, trail, record, after))
            && (!next.removed && !Changed(outcome) ==> next == g && after == trail)
  {
    after := trail;
    ContestedShape(protocol, policy, g, record);
    HoldsNothing(protocol, policy, g, record);
    var judged := JudgedAt(protocol, policy, g, record);
    FaresOut(protocol, policy, g, record, judged);
    if judged.Accepted? {
      after := AcceptedRetrails(protocol, policy, g, p, origin, trail, record, judged);
    }
  }
}

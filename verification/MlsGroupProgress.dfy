/** Every change raises a group's chain in a lexicographic order, so a set of commits changes it finitely often. */
module MlsGroupProgress {
  import opened Prelude
  import opened MlsGroupModel
  import opened MlsGroupInvariant
  import opened MlsGroupRetake
  import opened MlsGroupRaces

  // ----- the lexicographic order of chains ---------------------------------------------------

  /** They agree before `k`, where the one goes on and the other ends or holds a weaker rival. */
  ghost predicate ExceedsAt<T>(rank: T -> Rank, above: seq<T>, below: seq<T>, k: int) {
    && 0 <= k <= |below| && k < |above|
    && above[..k] == below[..k]
    && (k < |below| ==> Beats(rank(above[k]), rank(below[k])))
  }

  ghost predicate Exceeds<T>(rank: T -> Rank, above: seq<T>, below: seq<T>) {
    exists k :: ExceedsAt(rank, above, below, k)
  }

  lemma {:induction false} ExceedsIrreflexive<T>(rank: T -> Rank, chain: seq<T>)
    ensures !Exceeds(rank, chain, chain)
  {
    forall k | ExceedsAt(rank, chain, chain, k)
      ensures false
    {
      BeatsIrreflexive(rank(chain[k]));
    }
  }

  lemma {:induction false} ExceedsTransitive<T>(rank: T -> Rank, a: seq<T>, b: seq<T>, c: seq<T>)
    requires Exceeds(rank, a, b) && Exceeds(rank, b, c)
    ensures Exceeds(rank, a, c)
  {
    var j :| ExceedsAt(rank, a, b, j);
    var k :| ExceedsAt(rank, b, c, k);
    if j < k {
      assert b[..j] == b[..k][..j] && c[..j] == c[..k][..j];
      assert b[j] == b[..k][j] == c[..k][j] == c[j];
      assert ExceedsAt(rank, a, c, j);
    } else if k < j {
      assert a[..k] == a[..j][..k] && b[..k] == b[..j][..k];
      assert a[k] == a[..j][k] == b[..j][k] == b[k];
      assert ExceedsAt(rank, a, c, k);
    } else {
      if k < |c| {
        BeatsTransitive(rank(a[k]), rank(b[k]), rank(c[k]));
      }
      assert ExceedsAt(rank, a, c, k);
    }
  }

  // ----- a group's chain ---------------------------------------------------------------------

  /** A commit taken, as its id, change and frontier. */
  datatype Taken = Taken(id: CommitId, change: Change, frontier: Frontier)

  function ChainOf(g: Group): (chain: seq<Taken>)
    ensures |chain| == |g.applied|
  {
    seq(|g.applied|, i requires 0 <= i < |g.applied| =>
      Taken(g.applied[i].1.commitId, g.applied[i].1.change, g.applied[i].1.frontier))
  }

  function TakenRank(policy: Policy): Taken -> Rank {
    (t: Taken) => RankOf(policy, t.id, t.change, t.frontier)
  }

  lemma {:induction false} TookRaises(policy: Policy, g: Group, record: Record, change: Change, frontier: Frontier,
                                      next: Branch)
    requires Contested(g, record)
    requires RivalAt(g, record).Some? ==> Wins(policy, record.id, change, frontier, RivalAt(g, record).value)
    ensures var k := record.epoch - Base(g);
            var took := TookAt(g, k, EntryAt(g, record, change, frontier), next);
            ExceedsAt(TakenRank(policy), ChainOf(took), ChainOf(g), k)
  {
    TookEntries(g, record.epoch - Base(g), EntryAt(g, record, change, frontier), next);
  }

  /** A commit taken extends the chain or replaces a weaker rival and drops the rest. */
  lemma {:induction false} ChangeExceeds(protocol: Protocol, policy: Policy, g: Group, record: Record)
    requires !g.removed && Inv(protocol, g)
    requires Changed(ApplyCommit(protocol, policy, g, record).1)
    ensures Exceeds(TakenRank(policy), ChainOf(ApplyCommit(protocol, policy, g, record).0), ChainOf(g))
  {
    if !Contested(g, record) {
      UncontestedChangesNothing(protocol, policy, g, record);
    } else {
      ContestedShape(protocol, policy, g, record);
      AcceptsSettling(protocol, policy, g.witnesses, record, FromAt(g, record), BaselineAt(g, record),
                      RivalAt(g, record));
      var judged := JudgedAt(protocol, policy, g, record);
      TookRaises(policy, g, record, judged.change, judged.frontier, judged.next);
    }
  }

  function Changes(outcomes: seq<Outcome>): nat {
    if outcomes == [] then 0
    else (if outcomes[0].Applied? || outcomes[0].Replaced? then 1 else 0) + Changes(outcomes[1..])
  }

  lemma {:induction false} DeliverUnrolls(protocol: Protocol, policy: Policy, g: Group, deliveries: seq<Record>)
    requires deliveries != []
    ensures var (next, outcome) := ApplyCommit(protocol, policy, g, deliveries[0]);
            && Deliver(protocol, policy, g, deliveries).0 == Deliver(protocol, policy, next, deliveries[1..]).0
            && Changes(Deliver(protocol, policy, g, deliveries).1)
               == (if Changed(outcome) then 1 else 0) + Changes(Deliver(protocol, policy, next, deliveries[1..]).1)
  {
    var (next, outcome) := ApplyCommit(protocol, policy, g, deliveries[0]);
    var rest := Deliver(protocol, policy, next, deliveries[1..]).1;
    assert ([outcome] + rest)[1..] == rest;
  }

  lemma {:induction false} RemovedTakesNothing(protocol: Protocol, policy: Policy, g: Group, deliveries: seq<Record>)
    requires g.removed
    ensures Deliver(protocol, policy, g, deliveries).0 == g && Changes(Deliver(protocol, policy, g, deliveries).1) == 0
    decreases |deliveries|
  {
    if deliveries != [] {
      DeliverUnrolls(protocol, policy, g, deliveries);
      RemovedTakesNothing(protocol, policy, g, deliveries[1..]);
    }
  }

  lemma {:induction false} UnchangedStays(protocol: Protocol, policy: Policy, g: Group, record: Record)
    requires !g.removed && Inv(protocol, g) && NothingHeld(policy)
    requires var (next, outcome) := ApplyCommit(protocol, policy, g, record); !Changed(outcome) && !next.removed
    ensures ApplyCommit(protocol, policy, g, record).0 == g
  {
    if !Contested(g, record) {
      UncontestedChangesNothing(protocol, policy, g, record);
    } else {
      ContestedShape(protocol, policy, g, record);
      HoldsNothing(protocol, policy, g, record);
    }
  }

  lemma {:induction false} DeliveryKeepsInv(protocol: Protocol, policy: Policy, g: Group, deliveries: seq<Record>)
    requires Inv(protocol, g)
    ensures Inv(protocol, Deliver(protocol, policy, g, deliveries).0)
    decreases |deliveries|
  {
    if deliveries != [] {
      ApplyKeepsInv(protocol, policy, g, deliveries[0]);
      DeliverUnrolls(protocol, policy, g, deliveries);
      DeliveryKeepsInv(protocol, policy, ApplyCommit(protocol, policy, g, deliveries[0]).0, deliveries[1..]);
    }
  }

  /**
   * With nothing withheld, deliveries that leave this device in the group either changed nothing
   * at all or raised the chain, whatever its history.
   */
  lemma {:induction false} DeliveriesExceed(protocol: Protocol, policy: Policy, g: Group, deliveries: seq<Record>)
    requires !g.removed && Inv(protocol, g) && NothingHeld(policy)
    requires !Deliver(protocol, policy, g, deliveries).0.removed
    ensures var (end, outcomes) := Deliver(protocol, policy, g, deliveries);
            if Changes(outcomes) > 0 then Exceeds(TakenRank(policy), ChainOf(end), ChainOf(g)) else end == g
    decreases |deliveries|
  {
    if deliveries != [] {
      var (next, outcome) := ApplyCommit(protocol, policy, g, deliveries[0]);
      ApplyKeepsInv(protocol, policy, g, deliveries[0]);
      DeliverUnrolls(protocol, policy, g, deliveries);
      if next.removed {
        RemovedTakesNothing(protocol, policy, next, deliveries[1..]);
      }
      DeliveriesExceed(protocol, policy, next, deliveries[1..]);
      if Changed(outcome) {
        ChangeExceeds(protocol, policy, g, deliveries[0]);
      } else {
        UnchangedStays(protocol, policy, g, deliveries[0]);
      }
      ExceedsOnward(policy, g, next, Deliver(protocol, policy, next, deliveries[1..]).0);
    }
  }

  lemma {:induction false} ExceedsOnward(policy: Policy, g: Group, next: Group, end: Group)
    ensures Exceeds(TakenRank(policy), ChainOf(end), ChainOf(next))
            && Exceeds(TakenRank(policy), ChainOf(next), ChainOf(g))
            ==> Exceeds(TakenRank(policy), ChainOf(end), ChainOf(g))
  {
    if Exceeds(TakenRank(policy), ChainOf(end), ChainOf(next))
      && Exceeds(TakenRank(policy), ChainOf(next), ChainOf(g)) {
      ExceedsTransitive(TakenRank(policy), ChainOf(end), ChainOf(next), ChainOf(g));
    }
  }

  lemma {:induction false} DeliverSplits(protocol: Protocol, policy: Policy, g: Group, deliveries: seq<Record>, i: nat)
    requires i <= |deliveries|
    ensures Deliver(protocol, policy, g, deliveries).0
            == Deliver(protocol, policy, Deliver(protocol, policy, g, deliveries[..i]).0, deliveries[i..]).0
    decreases |deliveries|
  {
    if i > 0 {
      var next := ApplyCommit(protocol, policy, g, deliveries[0]).0;
      DeliverSplits(protocol, policy, next, deliveries[1..], i - 1);
      assert deliveries[..i][1..] == deliveries[1..][..i - 1] && deliveries[1..][i - 1..] == deliveries[i..];
    } else {
      assert deliveries[0..] == deliveries;
    }
  }

  /** Whatever is delivered, a group never returns to a chain it left while it holds this device. */
  lemma {:induction false} NeverOscillates(protocol: Protocol, policy: Policy, g: Group, deliveries: seq<Record>,
                                           i: nat, j: nat)
    requires !g.removed && Inv(protocol, g) && NothingHeld(policy)
    requires i <= j <= |deliveries| && !Deliver(protocol, policy, g, deliveries[..j]).0.removed
    ensures var middle := Deliver(protocol, policy, g, deliveries[..i]).0;
            var (later, outcomes) := Deliver(protocol, policy, middle, deliveries[i..j]);
            && later == Deliver(protocol, policy, g, deliveries[..j]).0
            && if Changes(outcomes) > 0 then ChainOf(later) != ChainOf(middle) else later == middle
  {
    var middle := Deliver(protocol, policy, g, deliveries[..i]).0;
    DeliverSplits(protocol, policy, g, deliveries[..j], i);
    assert deliveries[..j][..i] == deliveries[..i] && deliveries[..j][i..] == deliveries[i..j];
    DeliveryKeepsInv(protocol, policy, g, deliveries[..i]);
    if middle.removed {
      RemovedTakesNothing(protocol, policy, middle, deliveries[i..j]);
    }
    DeliveriesExceed(protocol, policy, middle, deliveries[i..j]);
    ExceedsIrreflexive(TakenRank(policy), ChainOf(middle));
  }

  /**
   * A commit the latest roster disallows never wins an epoch back: while a chain agrees up to a
   * commit that roster still allows, one it allows stays in that place, whatever frontiers,
   * priorities and ids the rivals delivered have.
   */
  lemma {:induction false} DisallowedNeverWinsBack(protocol: Protocol, policy: Policy, g: Group,
                                                   deliveries: seq<Record>, k: nat)
    requires !g.removed && Inv(protocol, g) && NothingHeld(policy)
    requires !Deliver(protocol, policy, g, deliveries).0.removed
    requires k < |g.applied| && Permits(policy, g.applied[k].1.change, policy.frontier, policy.frontier)
    ensures var end := Deliver(protocol, policy, g, deliveries).0;
            k <= |end.applied| && ChainOf(end)[..k] == ChainOf(g)[..k] ==>
              k < |end.applied| && Permits(policy, end.applied[k].1.change, policy.frontier, policy.frontier)
  {
    var end := Deliver(protocol, policy, g, deliveries).0;
    var above, below := ChainOf(end), ChainOf(g);
    DeliveriesExceed(protocol, policy, g, deliveries);
    if end != g && k <= |above| && above[..k] == below[..k] {
      var j :| ExceedsAt(TakenRank(policy), above, below, j);
      if j < k {
        assert above[j] == above[..k][j] == below[..k][j] == below[j];
        BeatsIrreflexive(TakenRank(policy)(below[j]));
      } else if j > k {
        assert above[k] == above[..j][k] == below[..j][k] == below[k];
      }
    }
  }

  // ----- a bound on the number of changes ----------------------------------------------------

  /** The records valid where this link is that do not beat it. */
  ghost function NotAbove(protocol: Protocol, policy: Policy, records: set<Record>, link: Link): set<Record> {
    set r | r in records
            && Settles(protocol, policy, link.at, r).Some?
            && !Beats(RankIn(policy, r, Settles(protocol, policy, link.at, r).value), LinkRank(policy, link))
  }

  ghost function Digit(protocol: Protocol, policy: Policy, records: set<Record>, link: Link): (digit: nat)
    ensures digit <= |records|
  {
    SubsetFits(NotAbove(protocol, policy, records, link), records);
    |NotAbove(protocol, policy, records, link)|
  }

  /** A link made by one of the records, where it is. */
  ghost predicate ValidLink(protocol: Protocol, policy: Policy, records: set<Record>, link: Link) {
    link.record in records && Settles(protocol, policy, link.at, link.record) == Some(link.made)
  }

  lemma {:induction false} DigitPositive(protocol: Protocol, policy: Policy, records: set<Record>, link: Link)
    requires ValidLink(protocol, policy, records, link)
    ensures Digit(protocol, policy, records, link) >= 1
  {
    BeatsIrreflexive(LinkRank(policy, link));
    assert link.record in NotAbove(protocol, policy, records, link);
    SubsetFits({link.record}, NotAbove(protocol, policy, records, link));
  }

  lemma {:induction false} BeatingRaisesDigit(protocol: Protocol, policy: Policy, records: set<Record>, link: Link,
                                              rival: Link)
    requires ValidLink(protocol, policy, records, link) && link.at == rival.at
    requires Beats(LinkRank(policy, link), LinkRank(policy, rival))
    ensures Digit(protocol, policy, records, rival) < Digit(protocol, policy, records, link)
  {
    var above := NotAbove(protocol, policy, records, link);
    var below := NotAbove(protocol, policy, records, rival);
    forall r | r in below
      ensures r in above
    {
      var rank := RankIn(policy, r, Settles(protocol, policy, link.at, r).value);
      if Beats(rank, LinkRank(policy, link)) {
        BeatsTransitive(rank, LinkRank(policy, link), LinkRank(policy, rival));
      }
    }
    BeatsIrreflexive(LinkRank(policy, link));
    assert link.record in above && link.record !in below;
    SubsetFits(below, above);
  }

  function Pow(base: nat, n: nat): nat {
    if n == 0 then 1 else base * Pow(base, n - 1)
  }

  /** The trail read as a number of `room` digits, one an epoch, 0 past its end. */
  ghost function Weight(protocol: Protocol, policy: Policy, records: set<Record>, trail: seq<Link>, room: nat): nat
    decreases room
  {
    if room == 0 || trail == [] then 0
    else Digit(protocol, policy, records, trail[0]) * Pow(|records| + 1, room - 1)
         + Weight(protocol, policy, records, trail[1..], room - 1)
  }

  lemma {:induction false} WeightBound(protocol: Protocol, policy: Policy, records: set<Record>, trail: seq<Link>,
                                       room: nat)
    ensures Weight(protocol, policy, records, trail, room) < Pow(|records| + 1, room)
    decreases room
  {
    if room > 0 {
      if trail != [] {
        WeightBound(protocol, policy, records, trail[1..], room - 1);
        DigitRoom(Digit(protocol, policy, records, trail[0]), |records|, Pow(|records| + 1, room - 1),
                  Weight(protocol, policy, records, trail[1..], room - 1));
      } else {
        PowPositive(|records| + 1, room);
      }
    }
  }

  lemma {:induction false} DigitRoom(digit: nat, most: nat, place: nat, rest: nat)
    requires digit <= most && rest < place
    ensures digit * place + rest < (most + 1) * place
  {
  }

  lemma {:induction false} PowPositive(base: nat, n: nat)
    requires base > 0
    ensures Pow(base, n) > 0
  {
    if n > 0 {
      PowPositive(base, n - 1);
      assert base * Pow(base, n - 1) > 0;
    }
  }

  /** At one place, a link over a weaker one or over none raises the number whatever followed. */
  lemma {:induction false} TakingRaisesFirst(protocol: Protocol, policy: Policy, records: set<Record>, trail: seq<Link>,
                                             link: Link, room: nat)
    requires room > 0 && ValidLink(protocol, policy, records, link)
    requires trail != [] ==> link.at == trail[0].at && Beats(LinkRank(policy, link), LinkRank(policy, trail[0]))
    ensures Weight(protocol, policy, records, trail, room) < Weight(protocol, policy, records, [link], room)
  {
    var place := Pow(|records| + 1, room - 1);
    var digit := Digit(protocol, policy, records, link);
    PowPositive(|records| + 1, room - 1);
    DigitPositive(protocol, policy, records, link);
    if trail != [] {
      BeatingRaisesDigit(protocol, policy, records, link, trail[0]);
      WeightBound(protocol, policy, records, trail[1..], room - 1);
      DigitRoom(Digit(protocol, policy, records, trail[0]), digit - 1, place,
                Weight(protocol, policy, records, trail[1..], room - 1));
    } else {
      assert digit * place > 0;
    }
  }

  /** Taking a link at place `k`, over a weaker one or past the end, raises the number. */
  lemma {:induction false} TakingRaisesWeight(protocol: Protocol, policy: Policy, records: set<Record>,
                                              trail: seq<Link>, k: nat, link: Link, room: nat)
    requires k <= |trail| && k < room && ValidLink(protocol, policy, records, link)
    requires k < |trail| ==> link.at == trail[k].at && Beats(LinkRank(policy, link), LinkRank(policy, trail[k]))
    ensures Weight(protocol, policy, records, trail, room)
            < Weight(protocol, policy, records, trail[..k] + [link], room)
    decreases k
  {
    if k > 0 {
      var after := trail[..k] + [link];
      assert after[0] == trail[0] && after[1..] == trail[1..][..k - 1] + [link];
      TakingRaisesWeight(protocol, policy, records, trail[1..], k - 1, link, room - 1);
    } else {
      assert trail[..k] + [link] == [link];
      TakingRaisesFirst(protocol, policy, records, trail, link, room);
    }
  }

  lemma {:induction false} RetakingWeighs(protocol: Protocol, policy: Policy, records: set<Record>, origin: Place,
                                          trail: seq<Link>, record: Record, after: seq<Link>, room: nat)
    requires Linked(origin, trail) && record in records && record.epoch < origin.branch.epoch + room
    requires Retakes(protocol, policy, origin, trail, record, after)
    ensures Weight(protocol, policy, records, trail, room) < Weight(protocol, policy, records, after, room)
  {
    var k := record.epoch - origin.branch.epoch;
    assert k < |trail| ==> LinkedAt(origin, trail, k);
    TakingRaisesWeight(protocol, policy, records, trail, k, after[k], room);
  }

  /** The first place from which every state is kept. */
  ghost function FirstKept(applied: seq<(nat, AppliedEpoch)>): (p: nat)
    ensures p <= |applied|
    ensures forall i :: p <= i < |applied| ==> applied[i].1.before.Some?
    ensures p > 0 ==> applied[p - 1].1.before.None?
  {
    if applied == [] then 0
    else if applied[|applied| - 1].1.before.None? then |applied|
    else FirstKept(applied[..|applied| - 1])
  }

  /** No state before place `p` is kept. */
  ghost predicate NoneKeptBefore(g: Group, p: nat) {
    forall i :: 0 <= i < p && i < |g.applied| ==> g.applied[i].1.before.None?
  }

  lemma {:induction false} EarlierIsStale(protocol: Protocol, policy: Policy, g: Group, p: nat, record: Record)
    requires !g.removed && Inv(protocol, g) && p <= |g.applied| && NoneKeptBefore(g, p)
    requires record.epoch < Base(g) + p
    ensures ApplyCommit(protocol, policy, g, record).0 == g && !Changed(ApplyCommit(protocol, policy, g, record).1)
  {
    UncontestedChangesNothing(protocol, policy, g, record);
  }

  lemma {:induction false} NoneKeptAfter(protocol: Protocol, policy: Policy, g: Group, p: nat, origin: Place,
                                         trail: seq<Link>, record: Record)
    requires OnTrail(protocol, g, p, origin, trail) && NoneKeptBefore(g, p)
    requires NothingHeld(policy) && record.epoch >= origin.branch.epoch
    requires !ApplyCommit(protocol, policy, g, record).0.removed
    ensures NoneKeptBefore(ApplyCommit(protocol, policy, g, record).0, p)
  {
    OnTrailBase(protocol, g, p, origin, trail);
    if !Contested(g, record) {
      UncontestedChangesNothing(protocol, policy, g, record);
    } else {
      ContestedShape(protocol, policy, g, record);
      HoldsNothing(protocol, policy, g, record);
      var judged := JudgedAt(protocol, policy, g, record);
      if judged.Accepted? {
        TookEntries(g, record.epoch - Base(g), EntryAt(g, record, judged.change, judged.frontier), judged.next);
      }
    }
  }

  lemma {:induction false} ChangesFitWeight(protocol: Protocol, policy: Policy, records: set<Record>, g: Group, p: nat,
                                            origin: Place, trail: seq<Link>, deliveries: seq<Record>, room: nat)
    requires OnTrail(protocol, g, p, origin, trail) && NoneKeptBefore(g, p) && NothingHeld(policy)
    requires forall r :: r in deliveries ==> r in records
    requires forall r :: r in records ==> r.epoch < origin.branch.epoch + room
    ensures Changes(Deliver(protocol, policy, g, deliveries).1) + Weight(protocol, policy, records, trail, room)
            < Pow(|records| + 1, room)
    decreases |deliveries|
  {
    if deliveries == [] {
      WeightBound(protocol, policy, records, trail, room);
    } else {
      var record := deliveries[0];
      var (next, outcome) := ApplyCommit(protocol, policy, g, record);
      DeliverUnrolls(protocol, policy, g, deliveries);
      OnTrailBase(protocol, g, p, origin, trail);
      if record.epoch < origin.branch.epoch {
        EarlierIsStale(protocol, policy, g, p, record);
        ChangesFitWeight(protocol, policy, records, g, p, origin, trail, deliveries[1..], room);
      } else {
        var after := DeliveryRetrails(protocol, policy, g, p, origin, trail, record);
        if next.removed {
          RemovedTakesNothing(protocol, policy, next, deliveries[1..]);
          WeightBound(protocol, policy, records, trail, room);
        } else {
          NoneKeptAfter(protocol, policy, g, p, origin, trail, record);
          if Changed(outcome) {
            RetakingWeighs(protocol, policy, records, origin, trail, record, after, room);
          }
          ChangesFitWeight(protocol, policy, records, next, p, origin, after, deliveries[1..], room);
        }
      }
    }
  }

  /**
   * Finitely many changes: whatever its history, `n` commits within `room` epochs from the first
   * state a group keeps change it fewer than (n + 1)^room times, however long and in whatever
   * order they are delivered.
   */
  lemma {:induction false} FinitelyManyChanges(protocol: Protocol, policy: Policy, records: set<Record>, g: Group,
                                               deliveries: seq<Record>, room: nat)
    requires !g.removed && Inv(protocol, g) && NothingHeld(policy)
    requires forall r :: r in deliveries ==> r in records
    requires forall r :: r in records ==> r.epoch < Base(g) + FirstKept(g.applied) + room
    ensures Changes(Deliver(protocol, policy, g, deliveries).1) < Pow(|records| + 1, room)
  {
    var p := FirstKept(g.applied);
    EveryGroupOnTrail(protocol, g, p);
    OnTrailBase(protocol, g, p, OriginOf(g, p), TrailOf(g, p));
    ChangesFitWeight(protocol, policy, records, g, p, OriginOf(g, p), TrailOf(g, p), deliveries, room);
  }
}

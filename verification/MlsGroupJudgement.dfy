/** What becomes of a commit, told by the answers of the membership policy and independently of how it is judged. */
module MlsGroupJudgement {
  import opened Prelude
  import opened OrderedMaps
  import opened MlsGroupModel
  import opened MlsGroupInvariant
  import opened MlsGroupSafety
  import opened MlsGroupRaces
  import opened MlsGroupConvergence

  // ----- the reference -----------------------------------------------------------------------

  /** The roster at the frontier admits everyone the change adds, and the change is allowed from the baseline to it. */
  ghost predicate Allowed(policy: Policy, change: Change, baseline: Frontier, frontier: Frontier) {
    && (forall who :: who in change.added ==> policy.admits(who, frontier))
    && policy.allows(change, baseline, frontier)
  }

  /** The commits of a race, in the order of their strength. */
  datatype Racer = Racer(id: CommitId, change: Change, frontier: Frontier)

  /**
   * Of two commits of which the latest roster allows one, that one is stronger; else the one of
   * further reach, of two of one reach that of higher priority, and of two of one priority that
   * of the lower id.
   */
  ghost predicate Stronger(policy: Policy, one: Racer, other: Racer) {
    var stands := Allowed(policy, one.change, policy.frontier, policy.frontier);
    var stood := Allowed(policy, other.change, policy.frontier, policy.frontier);
    var reach := policy.reach(one.frontier) - policy.reach(other.frontier);
    var priority := policy.priority(one.change) - policy.priority(other.change);
    || (stands && !stood)
    || (stands == stood && reach > 0)
    || (stands == stood && reach == 0 && priority > 0)
    || (stands == stood && reach == 0 && priority == 0 && Less(one.id, other.id))
  }

  ghost predicate AnyHeld(policy: Policy, witnesses: seq<(CommitId, Witness)>) {
    exists w :: w in witnesses && policy.withheld(w.1.committer, w.1.frontier)
  }

  /** What a record is read as, and how it is processed in a branch. */
  ghost predicate ReadAs(protocol: Protocol, branch: Branch, record: Record, c: Commit, change: Change,
                         settled: Option<Settled>) {
    && protocol.readCommit(record.bytes) == Some(c) && c.epoch == record.epoch
    && protocol.process(branch, c) == Judged(change, settled)
  }

  ghost predicate KeepsCommitter(settled: Option<Settled>) {
    settled.Some? && settled.value.committerKept
  }

  /** The record could be taken at this place. */
  ghost predicate Takeable(protocol: Protocol, policy: Policy, at: Place, record: Record, c: Commit, change: Change,
                           settled: Option<Settled>) {
    && at.branch.epoch == record.epoch && ReadAs(protocol, at.branch, record, c, change, settled)
    && Allowed(policy, change, at.bound, c.frontier) && KeepsCommitter(settled)
  }

  lemma {:induction false} WaitsExactly(policy: Policy, witnesses: seq<(CommitId, Witness)>)
    ensures Waiting(policy, witnesses) <==> AnyHeld(policy, witnesses)
  {
    if AnyHeld(policy, witnesses) {
      var w :| w in witnesses && policy.withheld(w.1.committer, w.1.frontier);
      var i :| 0 <= i < |witnesses| && witnesses[i] == w;
    }
  }

  lemma {:induction false} PermitsExactly(policy: Policy, change: Change, frontier: Frontier, baseline: Frontier)
    ensures Permits(policy, change, frontier, baseline) <==> Allowed(policy, change, baseline, frontier)
  {
    forall who | Permits(policy, change, frontier, baseline) && who in change.added
      ensures policy.admits(who, frontier)
    {
      var i :| 0 <= i < |change.added| && change.added[i] == who;
    }
  }

  function RacerOf(entry: AppliedEpoch): Racer {
    Racer(entry.commitId, entry.change, entry.frontier)
  }

  /** The order of the race is exactly the one above, whatever frontier, change and id the commits have. */
  lemma {:induction false} WinsExactly(policy: Policy, id: CommitId, change: Change, frontier: Frontier,
                                       held: AppliedEpoch)
    ensures Wins(policy, id, change, frontier, held)
            <==> Stronger(policy, Racer(id, change, frontier), RacerOf(held))
  {
    PermitsExactly(policy, change, policy.frontier, policy.frontier);
    PermitsExactly(policy, held.change, policy.frontier, policy.frontier);
  }

  // ----- a commit at its place ---------------------------------------------------------------

  /** How a commit read and processed fares against the rival it contests, if any. */
  lemma {:induction false} JudgedExactly(protocol: Protocol, policy: Policy, witnesses: seq<(CommitId, Witness)>,
                                         record: Record, from: ClientState, baseline: Frontier,
                                         rival: Option<AppliedEpoch>, c: Commit, change: Change,
                                         settled: Option<Settled>)
    requires from.epoch == record.epoch && ReadAs(protocol, from.At(), record, c, change, settled)
    ensures var judged := Judge(protocol, policy, witnesses, record, from, baseline, rival);
            var held := AnyHeld(policy, witnesses) || policy.withheld(change.committer, c.frontier);
            var allowed := Allowed(policy, change, baseline, c.frontier);
            var wins := rival.None? || Stronger(policy, Racer(record.id, change, c.frontier), RacerOf(rival.value));
            && (judged.Held? <==> held)
            && (judged.Lost? <==> !held && allowed && !wins)
            && (judged.Accepted? <==> !held && allowed && wins && KeepsCommitter(settled))
            && (judged.Accepted? ==>
                  judged == Accepted(change, c.frontier, Branch(record.epoch + 1, settled.value.authenticator)))
            && (judged.Held? ==>
                  judged.witnesses
                  == if policy.withheld(change.committer, c.frontier)
                     then Set(witnesses, record.id, Witness(change.committer, record.epoch, c.frontier)) else witnesses)
  {
    WaitsExactly(policy, witnesses);
    PermitsExactly(policy, change, c.frontier, baseline);
    if rival.Some? {
      WinsExactly(policy, record.id, change, c.frontier, rival.value);
    }
    if policy.withheld(change.committer, c.frontier) {
      SetKeepsWaiting(policy, witnesses, record.id, Witness(change.committer, record.epoch, c.frontier));
    }
  }

  /** The outcome of a judgement. */
  lemma {:induction false} OutcomeOf(protocol: Protocol, policy: Policy, g: Group, record: Record)
    requires Inv(protocol, g) && Contested(g, record)
    ensures var (g', outcome) := ApplyCommit(protocol, policy, g, record);
            var judged := JudgedAt(protocol, policy, g, record);
            && (judged.Refused? <==> outcome == Rejected) && (judged.Refused? ==> g' == g)
            && (judged.Lost? <==> outcome == Ignored(LostRace)) && (judged.Lost? ==> g' == g)
            && (judged.Held? <==> outcome == Ignored(Withheld))
            && (judged.Accepted? <==> outcome.Applied? || outcome.Replaced? || outcome.Removed?)
            && (outcome.Applied? ==> record.epoch == g.state.epoch)
            && (outcome.Replaced? ==> record.epoch < g.state.epoch)
  {
    ContestedShape(protocol, policy, g, record);
    if JudgedAt(protocol, policy, g, record).Held? {
      HeldKnown(protocol, policy, g, record);
      StepBackChained(protocol, policy, g.(witnesses := JudgedAt(protocol, policy, g, record).witnesses));
    }
  }

  lemma {:induction false} FaresLeads(protocol: Protocol, policy: Policy, g: Group, record: Record, judged: Judgement)
    requires Contested(g, record) && judged.Accepted?
    ensures var (g', outcome) := Fares(protocol, policy, g, record, judged);
            && g'.state.At() == judged.next && g'.bound == judged.frontier
            && (outcome.Removed? <==> !protocol.active(judged.next)) && (g'.removed <==> outcome.Removed?)
            && (!outcome.Removed? ==>
                  && |g'.applied| == record.epoch - Base(g) + 1
                  && g'.applied[record.epoch - Base(g)]
                     == (record.epoch, EntryAt(g, record, judged.change, judged.frontier)))
  {
    ResumedBranch(g.resumable, ClientState(judged.next.epoch, judged.next.authenticator, 0));
  }

  /** The group a commit accepted leads to. */
  lemma {:induction false} AcceptedLeads(protocol: Protocol, policy: Policy, g: Group, record: Record)
    requires Contested(g, record) && JudgedAt(protocol, policy, g, record).Accepted?
    ensures var (g', outcome) := ApplyCommit(protocol, policy, g, record);
            var judged := JudgedAt(protocol, policy, g, record);
            && g'.state.At() == judged.next && g'.bound == judged.frontier
            && (outcome.Removed? <==> !protocol.active(judged.next)) && (g'.removed <==> outcome.Removed?)
            && (!outcome.Removed? ==>
                  && |g'.applied| == record.epoch - Base(g) + 1
                  && g'.applied[record.epoch - Base(g)]
                     == (record.epoch, EntryAt(g, record, judged.change, judged.frontier)))
  {
    ContestedShape(protocol, policy, g, record);
    FaresLeads(protocol, policy, g, record, JudgedAt(protocol, policy, g, record));
  }

  /**
   * A commit for the current epoch is taken exactly if no witness is withheld, nor what it binds,
   * the roster at its frontier admits everyone it adds, it is allowed from the frontier bound,
   * and it keeps its committer's leaf. What is withheld is answered so, and else it is rejected.
   */
  lemma {:induction false} AppliesExactly(protocol: Protocol, policy: Policy, g: Group, record: Record, c: Commit,
                                          change: Change, settled: Option<Settled>)
    requires !g.removed && Inv(protocol, g) && record.epoch == g.state.epoch
    requires ReadAs(protocol, g.state.At(), record, c, change, settled)
    ensures var (g', outcome) := ApplyCommit(protocol, policy, g, record);
            var held := AnyHeld(policy, g.witnesses) || policy.withheld(change.committer, c.frontier);
            var taken := !held && Allowed(policy, change, g.bound, c.frontier) && KeepsCommitter(settled);
            && (outcome == Ignored(Withheld) <==> held)
            && (outcome.Applied? || outcome.Removed? <==> taken)
            && (!held && !taken ==> outcome == Rejected && g' == g)
            && (taken ==>
                  var next := Branch(record.epoch + 1, settled.value.authenticator);
                  && outcome == (if protocol.active(next) then Applied(next.epoch) else Removed)
                  && g'.state.At() == next && g'.bound == c.frontier)
            && (outcome.Applied? ==>
                  && |g'.applied| == |g.applied| + 1
                  && g'.applied[|g.applied|]
                     == (record.epoch, AppliedEpoch(record.id, Some(g.state), g.bound, c.frontier, change)))
  {
    JudgedExactly(protocol, policy, g.witnesses, record, g.state, g.bound, None, c, change, settled);
    OutcomeOf(protocol, policy, g, record);
    if JudgedAt(protocol, policy, g, record).Accepted? {
      AcceptedLeads(protocol, policy, g, record);
      TakingLeadsOn(protocol, policy, g, record);
    }
  }

  /**
   * A rival for an earlier epoch whose state is kept replaces the commit held there exactly if it
   * could be taken in its place and is the stronger; if it could be but is not, it lost the race
   * and changes nothing.
   */
  lemma {:induction false} ReplacesExactly(protocol: Protocol, policy: Policy, g: Group, k: nat, record: Record,
                                           c: Commit, change: Change, settled: Option<Settled>)
    requires !g.removed && Inv(protocol, g) && k < |g.applied| && record.epoch == g.applied[k].0
    requires g.applied[k].1.before.Some? && g.applied[k].1.commitId != record.id
    requires ReadAs(protocol, g.applied[k].1.before.value.At(), record, c, change, settled)
    ensures var (g', outcome) := ApplyCommit(protocol, policy, g, record);
            var entry := g.applied[k].1;
            var held := AnyHeld(policy, g.witnesses) || policy.withheld(change.committer, c.frontier);
            var allowed := Allowed(policy, change, entry.baseline, c.frontier);
            var stronger := Stronger(policy, Racer(record.id, change, c.frontier), RacerOf(entry));
            && (outcome == Ignored(Withheld) <==> held)
            && (outcome.Replaced? || outcome.Removed? <==> !held && allowed && stronger && KeepsCommitter(settled))
            && (outcome == Ignored(LostRace) <==> !held && allowed && !stronger)
            && (outcome == Rejected <==> !held && (!allowed || (stronger && !KeepsCommitter(settled))))
            && (outcome == Ignored(LostRace) || outcome == Rejected ==> g' == g)
  {
    JudgedExactly(protocol, policy, g.witnesses, record, g.applied[k].1.before.value, g.applied[k].1.baseline,
                  Some(g.applied[k].1), c, change, settled);
    OutcomeOf(protocol, policy, g, record);
  }

  /** What the group is once a rival replaced the commit held at place `k`. */
  lemma {:induction false} ReplacingCuts(protocol: Protocol, policy: Policy, g: Group, k: nat, record: Record,
                                         c: Commit, change: Change, settled: Option<Settled>)
    requires !g.removed && Inv(protocol, g) && k < |g.applied| && record.epoch == g.applied[k].0
    requires g.applied[k].1.before.Some? && g.applied[k].1.commitId != record.id
    requires ReadAs(protocol, g.applied[k].1.before.value.At(), record, c, change, settled)
    requires var outcome := ApplyCommit(protocol, policy, g, record).1; outcome.Replaced? || outcome.Removed?
    ensures var (g', outcome) := ApplyCommit(protocol, policy, g, record);
            var entry := g.applied[k].1;
            && settled.Some?
            && var next := Branch(record.epoch + 1, settled.value.authenticator);
               && outcome == (if protocol.active(next) then Replaced(next.epoch, entry.commitId) else Removed)
               && g'.state.At() == next && g'.bound == c.frontier
               && (outcome.Replaced? ==>
                     && |g'.applied| == k + 1
                     && g'.applied[k]
                        == (record.epoch, AppliedEpoch(record.id, entry.before, entry.baseline, c.frontier, change)))
  {
    JudgedExactly(protocol, policy, g.witnesses, record, g.applied[k].1.before.value, g.applied[k].1.baseline,
                  Some(g.applied[k].1), c, change, settled);
    OutcomeOf(protocol, policy, g, record);
    AcceptedLeads(protocol, policy, g, record);
    ContestedShape(protocol, policy, g, record);
  }

  /** What cannot be read, is for another epoch, or cannot be processed is rejected, and changes nothing. */
  lemma {:induction false} UnreadIsRejected(protocol: Protocol, policy: Policy, g: Group, record: Record)
    requires Inv(protocol, g) && Contested(g, record)
    ensures var (g', outcome) := ApplyCommit(protocol, policy, g, record);
            var read := protocol.readCommit(record.bytes);
            if read.None? || read.value.epoch != record.epoch then outcome == Rejected && g' == g
            else
              var processed := protocol.process(FromAt(g, record).At(), read.value);
              && (processed.Unprocessable? ==> outcome == Rejected && g' == g)
              && (processed.Unjudged? ==>
                    outcome == if AnyHeld(policy, g.witnesses) then Ignored(Withheld) else Rejected)
  {
    WaitsExactly(policy, g.witnesses);
    OutcomeOf(protocol, policy, g, record);
  }

  // ----- a commit withheld -------------------------------------------------------------------

  /** A commit that adds leaves, at or past a withheld witness, with none of this very device from there on. */
  ghost predicate Doubtful(policy: Policy, g: Group, witnesses: seq<(CommitId, Witness)>, i: nat)
    requires i < |g.applied|
  {
    && g.applied[i].1.change.added != []
    && (exists w :: w in witnesses && policy.withheld(w.1.committer, w.1.frontier) && w.1.epoch <= g.applied[i].0)
    && forall j :: i <= j < |g.applied| ==>
         g.applied[j].1.change.committer != g.owner.identityId
         || g.applied[j].1.change.committerDevice != g.owner.deviceCredential
  }

  /**
   * What a commit that binds withheld operations does: it is kept as a witness of its committer,
   * its own epoch and its frontier, next to those of other commits, and the chain is cut before
   * the first commit doubtful by then, to the very state and frontier from before it.
   */
  lemma {:induction false} WithheldExactly(protocol: Protocol, policy: Policy, g: Group, record: Record, c: Commit,
                                           change: Change, settled: Option<Settled>)
    requires Inv(protocol, g) && Contested(g, record)
    requires ReadAs(protocol, FromAt(g, record).At(), record, c, change, settled)
    requires policy.withheld(change.committer, c.frontier)
    ensures var (g', outcome) := ApplyCommit(protocol, policy, g, record);
            var kept := |g'.applied|;
            && outcome == Ignored(Withheld)
            && (forall w :: w in g'.witnesses ==>
                  w == (record.id, Witness(change.committer, record.epoch, c.frontier)) || w in g.witnesses)
            && (record.id, Witness(change.committer, record.epoch, c.frontier)) in g'.witnesses
            && (forall w :: w in g.witnesses && w.0 != record.id ==> w in g'.witnesses)
            && g'.applied <= g.applied
            && (forall i :: 0 <= i < kept ==> !Doubtful(policy, g, g'.witnesses, i))
            && (if kept == |g.applied| then g'.state == g.state && g'.bound == g.bound
                else
                  && Doubtful(policy, g, g'.witnesses, kept)
                  && g.applied[kept].1.before == Some(g'.state) && g'.bound == g.applied[kept].1.baseline)
  {
    JudgedExactly(protocol, policy, g.witnesses, record, FromAt(g, record), BaselineAt(g, record), RivalAt(g, record),
                  c, change, settled);
    ContestedShape(protocol, policy, g, record);
    var known := JudgedAt(protocol, policy, g, record).witnesses;
    HeldKnown(protocol, policy, g, record);
    StepBackKeepsPrefix(protocol, policy, g.(witnesses := known));
    SetMembers(g.witnesses, record.id, Witness(change.committer, record.epoch, c.frontier));
    SetKeepsOthers(g.witnesses, record.id, Witness(change.committer, record.epoch, c.frontier));
    forall i | 0 <= i < |g.applied|
      ensures Doubtful(policy, g, known, i) <==> Droppable(policy, g.(witnesses := known), i)
    {
      DoubtfulIsDroppable(policy, g, known, i);
    }
  }

  lemma {:induction false} SetKeepsOthers<K, V>(m: seq<(K, V)>, key: K, value: V)
    ensures forall e :: e in m && e.0 != key ==> e in Set(m, key, value)
  {
    if m != [] {
      SetKeepsOthers(m[1..], key, value);
    }
  }

  lemma {:induction false} DoubtfulIsDroppable(policy: Policy, g: Group, known: seq<(CommitId, Witness)>, i: nat)
    requires i < |g.applied|
    ensures Doubtful(policy, g, known, i) <==> Droppable(policy, g.(witnesses := known), i)
  {
    var waiting := g.(witnesses := known);
    assert forall j :: 0 <= j < |g.applied| ==>
        (Own(waiting, j) <==> && g.applied[j].1.change.committer == g.owner.identityId
                              && g.applied[j].1.change.committerDevice == g.owner.deviceCredential);
    if Doubtful(policy, g, known, i) {
      var w :| w in known && policy.withheld(w.1.committer, w.1.frontier) && w.1.epoch <= g.applied[i].0;
      var n :| 0 <= n < |known| && known[n] == w;
    }
  }

  // ----- building and confirming -------------------------------------------------------------

  /**
   * A commit is built exactly if no witness is withheld, the library builds it on the current
   * state, and it is allowed from the frontier bound to the latest; confirmed at once, it is the
   * next of the chain, from the very state, and binds that frontier.
   */
  lemma {:induction false} BuildsAndConfirms(protocol: Protocol, policy: Policy, g: Group, draft: Bytes, id: CommitId)
    requires Sound(protocol, g.owner) && !g.removed && Inv(protocol, g)
    ensures var (pending, built) := BuildCommit(protocol, policy, g, draft);
            var (g', outcome) := Confirm(pending, id);
            var made := protocol.build(g.state.At(), draft);
            && (built <==>
                  && !AnyHeld(policy, g.witnesses) && made.Some?
                  && policy.allows(made.value.change, g.bound, policy.frontier))
            && (!built ==> pending == g)
            && (built ==>
                  && outcome == Applied(g.state.epoch + 1)
                  && g'.state == ClientState(g.state.epoch + 1, made.value.authenticator, 0)
                  && g'.bound == policy.frontier && |g'.applied| == |g.applied| + 1
                  && g'.applied[|g.applied|]
                     == (g.state.epoch, AppliedEpoch(id, Some(g.state), g.bound, policy.frontier, made.value.change)))
  {
    WaitsExactly(policy, g.witnesses);
    if BuildCommit(protocol, policy, g, draft).1 {
      BuiltConfirms(g, BuildCommit(protocol, policy, g, draft).0, id);
    }
  }

  lemma {:induction false} BuiltConfirms(g: Group, pending: Group, id: CommitId)
    requires Contiguously(g) && pending.pending.Some? && pending == g.(pending := pending.pending)
    requires pending.pending.value.before == g.state && pending.pending.value.epoch == g.state.epoch
    ensures var p := pending.pending.value;
            var (g', outcome) := Confirm(pending, id);
            && outcome == Applied(p.state.epoch) && g'.state == p.state && g'.bound == p.frontier
            && |g'.applied| == |g.applied| + 1
            && g'.applied[|g.applied|]
               == (g.state.epoch, AppliedEpoch(id, Some(g.state), g.bound, p.frontier, p.change))
  {
    var p := pending.pending.value;
    SameEpochIsSameBranch(g.state, g.state);
    TakeShape(g, g.state.epoch, AppliedEpoch(id, Some(g.state), g.bound, p.frontier, p.change));
  }

  // ----- the chain devices end on ------------------------------------------------------------

  /** What a record settles to at a place. */
  lemma {:induction false} SettlesExactly(protocol: Protocol, policy: Policy, at: Place, record: Record, c: Commit,
                                          change: Change, settled: Option<Settled>)
    requires at.branch.epoch == record.epoch && ReadAs(protocol, at.branch, record, c, change, settled)
    ensures Settles(protocol, policy, at, record)
            == if Allowed(policy, change, at.bound, c.frontier) && KeepsCommitter(settled)
               then Some(Settlement(change, c.frontier, Branch(record.epoch + 1, settled.value.authenticator)))
               else None
  {
    PermitsExactly(policy, change, c.frontier, at.bound);
  }

  /** On a greedy chain no commit that could be taken in the place of another is stronger. */
  lemma {:induction false} GreedyHoldsStrongest(world: Protocol, policy: Policy, records: set<Record>, origin: Place,
                                                best: seq<Link>, k: nat, record: Record, c: Commit, change: Change,
                                                settled: Option<Settled>)
    requires Greedy(world, policy, records, origin, best) && k <= |best| && record in records
    requires Takeable(world, policy, Tip(origin, best, k), record, c, change, settled)
    ensures k < |best|
    ensures !Stronger(policy, Racer(record.id, change, c.frontier),
                      Racer(best[k].record.id, best[k].made.change, best[k].made.frontier))
  {
    TipEpoch(origin, best, k);
    SettlesExactly(world, policy, Tip(origin, best, k), record, c, change, settled);
    assert Answered(world, policy, origin, best, record);
    var held := AppliedEpoch(best[k].record.id, None, [], best[k].made.frontier, best[k].made.change);
    WinsExactly(policy, record.id, change, c.frontier, held);
  }

  /** The same told of a group on that chain. */
  lemma {:induction false} CourseHoldsStrongest(protocol: Protocol, world: Protocol, policy: Policy,
                                                records: set<Record>, g: Group, p: nat, origin: Place,
                                                trail: seq<Link>, i: nat, record: Record, c: Commit,
                                                change: Change, settled: Option<Settled>)
    requires OnCourse(protocol, world, policy, records, g, p, origin, trail)
    requires Greedy(world, policy, records, origin, trail) && record in records && p <= i < |g.applied|
    ensures var entry := g.applied[i].1;
            && entry.before.Some?
            && (Takeable(world, policy, Place(entry.before.value.At(), entry.baseline), record, c, change, settled) ==>
                  !Stronger(policy, Racer(record.id, change, c.frontier), RacerOf(entry)))
  {
    var k := i - p;
    assert FollowsAt(g, p, trail, k) && LinkedAt(origin, trail, k);
    if Takeable(world, policy, trail[k].at, record, c, change, settled) {
      GreedyHoldsStrongest(world, policy, records, origin, trail, k, record, c, change, settled);
    }
  }

  lemma {:induction false} CourseEnds(protocol: Protocol, world: Protocol, policy: Policy, records: set<Record>,
                                      g: Group, p: nat, origin: Place, trail: seq<Link>, record: Record, c: Commit,
                                      change: Change, settled: Option<Settled>)
    requires OnCourse(protocol, world, policy, records, g, p, origin, trail)
    requires Greedy(world, policy, records, origin, trail) && record in records
    ensures !Takeable(world, policy, Place(g.state.At(), g.bound), record, c, change, settled)
  {
    if Takeable(world, policy, Place(g.state.At(), g.bound), record, c, change, settled) {
      GreedyHoldsStrongest(world, policy, records, origin, trail, |trail|, record, c, change, settled);
    }
  }

  /**
   * A device ends with the strongest commits: at each place of its chain from where it set out,
   * none of the commits it did not lose, that could be taken in the state and from the frontier
   * before the one it holds, is stronger than that; and none could be taken next.
   */
  lemma {:induction false} EndsOnStrongest(world: Protocol, policy: Policy, records: set<Record>, origin: Place,
                                           d: Device, events: seq<Event>, pass: seq<Record>, record: Record, c: Commit,
                                           change: Change, settled: Option<Settled>)
    requires Shared(policy, records, origin)
    requires SetOut(world, policy, records, origin, d) && Sees(world, policy, records, d, events, pass)
    requires record in records - LostOwn(d, events)
    ensures var end := Ends(policy, d, events, pass);
            && d.p <= |end.applied|
            && (forall i :: d.p <= i < |end.applied| ==>
                  var entry := end.applied[i].1;
                  && entry.before.Some?
                  && (Takeable(world, policy, Place(entry.before.value.At(), entry.baseline), record, c, change,
                               settled) ==>
                        !Stronger(policy, Racer(record.id, change, c.frontier), RacerOf(entry))))
            && !Takeable(world, policy, Place(end.state.At(), end.bound), record, c, change, settled)
  {
    var end := Ends(policy, d, events, pass);
    var trail := EndsOnGreedyChain(world, policy, records, origin, d, events, pass);
    var left := records - LostOwn(d, events);
    forall i | d.p <= i < |end.applied|
      ensures var entry := end.applied[i].1;
              && entry.before.Some?
              && (Takeable(world, policy, Place(entry.before.value.At(), entry.baseline), record, c, change,
                           settled) ==>
                    !Stronger(policy, Racer(record.id, change, c.frontier), RacerOf(entry)))
    {
      CourseHoldsStrongest(d.protocol, world, policy, left, end, d.p, origin, trail, i, record, c, change, settled);
    }
    CourseEnds(d.protocol, world, policy, left, end, d.p, origin, trail, record, c, change, settled);
  }
}

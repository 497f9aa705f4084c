/**
 * One device's view of an MLS group, as values: the state `MlsGroup` keeps and what each of
 * its public calls makes of it. The class `MlsGroup` is proved to compute these functions.
 */
module MlsGroupModel {
  import opened Prelude
  import opened OrderedMaps

  const RETAINED_EPOCHS: nat := 8
  const AUTHENTICATOR_LENGTH: nat := 32

  type Identity = string
  type CommitId = string

  /** Roster-log head digests. */
  type Frontier = seq<string>
  type Authenticator = a: Bytes | |a| == AUTHENTICATOR_LENGTH witness seq(AUTHENTICATOR_LENGTH, _ => 0)

  datatype LeafOwner = LeafOwner(identityId: Identity, deviceCredential: string)

  /** An epoch of one branch of the group's history: the authenticator identifies the epoch secret. */
  datatype Branch = Branch(epoch: nat, authenticator: Authenticator)

  /** A client state: its branch and how far its ratchets have gone in that epoch. */
  datatype ClientState = ClientState(epoch: nat, authenticator: Authenticator, generation: nat) {
    function At(): Branch {
      Branch(epoch, authenticator)
    }
  }

  datatype Extension = Extension(extensionType: nat, extensionData: Bytes)

  datatype Change = Change(
    committer: Identity,
    committerDevice: string,
    added: seq<Identity>,
    removed: seq<Identity>,
    context: seq<Extension>,
    holders: seq<Identity>,
    proposedContext: Option<seq<Extension>>)

  /** A published commit as the node hands it over. */
  datatype Record = Record(id: CommitId, epoch: nat, bytes: Bytes)

  /** What a record's bytes say: the epoch they name, the frontier they bind, the message. */
  datatype Commit = Commit(epoch: nat, frontier: Frontier, message: Bytes)

  /** The epoch an accepted commit leads to, and whether its leaf kept its owner. */
  datatype Settled = Settled(authenticator: Authenticator, committerKept: bool)

  /**
   * What processing a message does. `Unprocessable`: it fails before anything is judged.
   * `Unjudged`: it is no commit by a leaf whose change can be told, and is not accepted.
   * `Judged`: the change is put to the judgement; once accepted it settles, or fails.
   */
  datatype Processed =
    | Unprocessable
    | Unjudged
    | Judged(change: Change, settled: Option<Settled>)

  /** A commit this device built. */
  datatype Built = Built(change: Change, authenticator: Authenticator)

  /**
   * The MLS library as this device runs it. Processing depends on the epoch a state is in
   * and not on its ratchets. Whether this device still holds a leaf is part of the group
   * state an authenticator identifies. A draft is a commit's proposals and the randomness
   * used to build it.
   */
  datatype Protocol = Protocol(
    readCommit: Bytes -> Option<Commit>,
    process: (Branch, Commit) -> Processed,
    build: (Branch, Bytes) -> Option<Built>,
    active: Branch -> bool)

  /** The membership policy as it answers during one call. */
  datatype Policy = Policy(
    frontier: Frontier,
    admits: (Identity, Frontier) -> bool,
    reach: Frontier -> int,
    priority: Change -> int,
    allows: (Change, Frontier, Frontier) -> bool,
    withheld: (Identity, Frontier) -> bool)

  datatype Witness = Witness(committer: Identity, epoch: nat, frontier: Frontier)

  datatype AppliedEpoch = AppliedEpoch(
    commitId: CommitId,
    before: Option<ClientState>,
    baseline: Frontier,
    frontier: Frontier,
    change: Change)

  datatype PendingCommit = PendingCommit(
    before: ClientState,
    change: Change,
    epoch: nat,
    frontier: Frontier,
    state: ClientState)

  datatype Group = Group(
    owner: LeafOwner,
    state: ClientState,
    bound: Frontier,
    removed: bool,
    pending: Option<PendingCommit>,
    applied: seq<(nat, AppliedEpoch)>,
    witnesses: seq<(CommitId, Witness)>,
    resumable: seq<ClientState>)

  datatype Reason = Duplicate | LostRace | Stale | Withheld

  /** `Rejected` is the rejection `InvalidMlsGroupError` stands for. */
  datatype Outcome =
    | Applied(epoch: nat)
    | Replaced(epoch: nat, discardedCommitId: CommitId)
    | Ignored(reason: Reason)
    | Gap(got: nat, have: nat)
    | Removed
    | Rejected

  /** A group as `create`, `join` or `restore` starts it. */
  function Start(protocol: Protocol, owner: LeafOwner, state: ClientState, bound: Frontier): Group {
    Group(owner, state, bound, !protocol.active(state.At()), None, [], [], [])
  }

  // ----- states, resumption ------------------------------------------------------------------

  /** Same epoch, and every byte of the one authenticator found in the other. */
  predicate SameEpoch(one: ClientState, other: ClientState) {
    && one.epoch == other.epoch
    && forall i :: 0 <= i < |one.authenticator| ==>
         i < |other.authenticator| && other.authenticator[i] == one.authenticator[i]
  }

  lemma {:induction false} SameEpochIsSameBranch(one: ClientState, other: ClientState)
    ensures SameEpoch(one, other) <==> one.At() == other.At()
  {
  }

  function FindSameEpoch(left: seq<ClientState>, state: ClientState): Option<ClientState> {
    if left == [] then None
    else if SameEpoch(left[0], state) then Some(left[0])
    else FindSameEpoch(left[1..], state)
  }

  function Beyond(left: seq<ClientState>, epoch: nat): seq<ClientState> {
    if left == [] then []
    else if left[0].epoch > epoch then [left[0]] + Beyond(left[1..], epoch)
    else Beyond(left[1..], epoch)
  }

  /** The stashed state of the very epoch `state` is in, or `state` itself. */
  function Resumed(left: seq<ClientState>, state: ClientState): ClientState {
    match FindSameEpoch(left, state)
    case Some(stashed) => stashed
    case None => state
  }

  // ----- the policy's judgements -------------------------------------------------------------

  predicate Waiting(policy: Policy, witnesses: seq<(CommitId, Witness)>) {
    exists i :: 0 <= i < |witnesses|
                && policy.withheld(witnesses[i].1.committer, witnesses[i].1.frontier)
  }

  predicate Permits(policy: Policy, change: Change, frontier: Frontier, baseline: Frontier) {
    && (forall i :: 0 <= i < |change.added| ==> policy.admits(change.added[i], frontier))
    && policy.allows(change, baseline, frontier)
  }

  /** A commit's key in a race: still allowed, then reach, then priority, then the lower id. */
  datatype Rank = Rank(stands: bool, reach: int, priority: int, id: CommitId)

  function RankOf(policy: Policy, id: CommitId, change: Change, frontier: Frontier): Rank {
    Rank(
      Permits(policy, change, policy.frontier, policy.frontier),
      policy.reach(frontier),
      policy.priority(change),
      id)
  }

  predicate Beats(a: Rank, b: Rank) {
    if a.stands != b.stands then a.stands
    else if a.reach != b.reach then a.reach > b.reach
    else if a.priority != b.priority then a.priority > b.priority
    else Less(a.id, b.id)
  }

  predicate Wins(policy: Policy, id: CommitId, change: Change, frontier: Frontier, previous: AppliedEpoch) {
    Beats(
      RankOf(policy, id, change, frontier),
      RankOf(policy, previous.commitId, previous.change, previous.frontier))
  }

  predicate ByOwner(owner: LeafOwner, change: Change) {
    change.committer == owner.identityId && change.committerDevice == owner.deviceCredential
  }

  // ----- stepping back -----------------------------------------------------------------------

  /** The earliest epoch of a witness the group waits on, or `latest` if that is earlier. */
  function EarliestWithheld(policy: Policy, witnesses: seq<(CommitId, Witness)>, latest: nat): nat {
    if witnesses == [] then latest
    else
      var w := witnesses[0].1;
      var earliest := if policy.withheld(w.committer, w.frontier) && w.epoch < latest then w.epoch else latest;
      EarliestWithheld(policy, witnesses[1..], earliest)
  }

  /** The place after this device's last own commit; 0 when it made none. */
  function AfterOwn(owner: LeafOwner, applied: seq<(nat, AppliedEpoch)>): (next: nat)
    ensures next <= |applied|
  {
    if applied == [] then 0
    else if ByOwner(owner, applied[|applied| - 1].1.change) then |applied|
    else AfterOwn(owner, applied[..|applied| - 1])
  }

  /** The first place from `i` on of a commit that adds leaves at or past `since`; the length if none. */
  function FirstAdd(applied: seq<(nat, AppliedEpoch)>, since: nat, i: nat): (place: nat)
    requires i <= |applied|
    ensures i <= place <= |applied|
    decreases |applied| - i
  {
    if i == |applied| then i
    else if applied[i].0 >= since && |applied[i].1.change.added| > 0 then i
    else FirstAdd(applied, since, i + 1)
  }

  /** The states kept before the commits past `from`; none when one of them was dropped. */
  function StatesBeyond(applied: seq<(nat, AppliedEpoch)>, from: nat): Option<seq<ClientState>> {
    if applied == [] then Some([])
    else
      match StatesBeyond(applied[1..], from)
      case None => None
      case Some(rest) =>
        if applied[0].0 <= from then Some(rest)
        else if applied[0].1.before.None? then None
        else Some([applied[0].1.before.value] + rest)
  }

  function StepBackPlace(policy: Policy, g: Group): (place: nat)
    ensures place <= |g.applied|
  {
    FirstAdd(
      g.applied,
      EarliestWithheld(policy, g.witnesses, g.state.epoch),
      AfterOwn(g.owner, g.applied))
  }

  /** None when a state it needs is no longer kept: the source then rejects half way. */
  function StepBack(policy: Policy, g: Group): Option<Group> {
    var place := StepBackPlace(policy, g);
    if place == |g.applied| then Some(g)
    else
      var (from, first) := g.applied[place];
      match StatesBeyond(g.applied, from)
      case None => None
      case Some(left) =>
        if first.before.None? then None
        else Some(g.(
                  resumable := g.resumable + [g.state] + left,
                  state := first.before.value,
                  bound := first.baseline,
                  applied := Below(g.applied, from)))
  }

  // ----- taking a commit ---------------------------------------------------------------------

  function DropStates(applied: seq<(nat, AppliedEpoch)>, oldest: int): seq<(nat, AppliedEpoch)> {
    seq(|applied|, i requires 0 <= i < |applied| =>
      if applied[i].0 < oldest then (applied[i].0, applied[i].1.(before := None)) else applied[i])
  }

  function Take(applied: seq<(nat, AppliedEpoch)>, epoch: nat, taken: AppliedEpoch): seq<(nat, AppliedEpoch)> {
    DropStates(Set(applied, epoch, taken), epoch + 1 - RETAINED_EPOCHS)
  }

  /**
   * How a commit fares before the group changes. `Held` carries the witnesses known by then;
   * `Refused` is a rejection, `Lost` a race its rival holds.
   */
  datatype Judgement =
    | Refused
    | Lost
    | Held(witnesses: seq<(CommitId, Witness)>)
    | Accepted(change: Change, frontier: Frontier, next: Branch)

  /** `rival` is the commit taken for the epoch so far, if any: the commit must win over it. */
  function Judge(protocol: Protocol, policy: Policy, witnesses: seq<(CommitId, Witness)>, record: Record,
                 from: ClientState, baseline: Frontier, rival: Option<AppliedEpoch>): Judgement
  {
    match protocol.readCommit(record.bytes)
    case None => Refused
    case Some(commit) =>
      if commit.epoch != record.epoch then Refused
      else
        match protocol.process(from.At(), commit)
        case Unprocessable => Refused
        case Unjudged => if Waiting(policy, witnesses) then Held(witnesses) else Refused
        case Judged(change, settled) =>
          var known :=
            if policy.withheld(change.committer, commit.frontier)
            then Set(witnesses, record.id, Witness(change.committer, record.epoch, commit.frontier))
            else witnesses;
          if Waiting(policy, known) then Held(known)
          else if !Permits(policy, change, commit.frontier, baseline) then Refused
          else if rival.Some? && !Wins(policy, record.id, change, commit.frontier, rival.value) then Lost
          else if settled.None? || !settled.value.committerKept then Refused
          else Accepted(change, commit.frontier, Branch(from.epoch + 1, settled.value.authenticator))
  }

  /** The group once a commit judged from `from` is taken for its epoch. */
  function Adopt(protocol: Protocol, g: Group, record: Record, from: ClientState, baseline: Frontier, change: Change,
                 frontier: Frontier, next: Branch): Group
  {
    var state := ClientState(next.epoch, next.authenticator, 0);
    g.(witnesses := [],
       applied := Take(g.applied, record.epoch,
                       AppliedEpoch(record.id, Some(from), baseline, frontier, change)),
       state := Resumed(g.resumable, state),
       resumable := Beyond(g.resumable, next.epoch),
       bound := frontier,
       removed := !protocol.active(next))
  }

  /** Judges a commit for the state it starts from; a commit that is held makes the group step back. */
  function Advance(protocol: Protocol, policy: Policy, g: Group, record: Record, from: ClientState, baseline: Frontier,
                   rival: Option<AppliedEpoch>): (Group, Outcome)
    requires !g.removed
  {
    match Judge(protocol, policy, g.witnesses, record, from, baseline, rival)
    case Refused => (g, Rejected)
    case Lost => (g, Ignored(LostRace))
    case Held(known) =>
      var waiting := g.(witnesses := known);
      (match StepBack(policy, waiting)
       case Some(back) => (back, Ignored(Withheld))
       case None => (waiting, Rejected))
    case Accepted(change, frontier, next) =>
      var taken := Adopt(protocol, g, record, from, baseline, change, frontier, next);
      (taken, if taken.removed then Removed else Applied(next.epoch))
  }

  function ApplyCommit(protocol: Protocol, policy: Policy, g: Group, record: Record): (Group, Outcome) {
    if g.removed then (g, Removed)
    else if record.epoch > g.state.epoch then (g, Gap(record.epoch, g.state.epoch))
    else
      var previous := Get(g.applied, record.epoch);
      if previous.Some? && previous.value.commitId == record.id then (g, Ignored(Duplicate))
      else if record.epoch == g.state.epoch then
        Advance(protocol, policy, g, record, g.state, g.bound, None)
      else if previous.None? || previous.value.before.None? then (g, Ignored(Stale))
      else
        var (taken, outcome) :=
          Advance(protocol, policy, g, record, previous.value.before.value, previous.value.baseline, previous);
        if outcome.Applied?
        then (taken.(applied := Below(taken.applied, record.epoch + 1)),
              Replaced(outcome.epoch, previous.value.commitId))
        else (taken, outcome)
  }

  // ----- own commits -------------------------------------------------------------------------

  /** Builds a commit and keeps it as pending; false when it is refused. */
  function BuildCommit(protocol: Protocol, policy: Policy, g: Group, draft: Bytes): (Group, bool) {
    if g.removed || Waiting(policy, g.witnesses) then (g, false)
    else
      match protocol.build(g.state.At(), draft)
      case None => (g, false)
      case Some(built) =>
        if !policy.allows(built.change, g.bound, policy.frontier) then (g, false)
        else
          (g.(pending := Some(PendingCommit(
                                g.state, built.change, g.state.epoch, policy.frontier,
                                ClientState(g.state.epoch + 1, built.authenticator, 0)))),
           true)
  }

  function Confirm(g: Group, commitId: CommitId): (Group, Outcome) {
    match g.pending
    case None => (g, Rejected)
    case Some(pending) =>
      if !SameEpoch(g.state, pending.before) then (g.(pending := None), Rejected)
      else
        (g.(pending := None,
            witnesses := [],
            applied := Take(g.applied, pending.epoch,
                            AppliedEpoch(commitId, Some(pending.before), g.bound, pending.frontier, pending.change)),
            state := pending.state,
            bound := pending.frontier),
         Applied(pending.state.epoch))
  }

  // ----- runs --------------------------------------------------------------------------------

  /**
   * A public call. `Message` is an application message sent or opened: it moves the ratchets
   * of the current epoch to `generation`, which a removed group can do only by opening one.
   */
  datatype Call =
    | ApplyCall(policy: Policy, record: Record)
    | BuildCall(policy: Policy, draft: Bytes)
    | ConfirmCall(commitId: CommitId)
    | AbandonCall
    | MessageCall(generation: nat)

  function Step(protocol: Protocol, g: Group, call: Call): Group {
    match call
    case ApplyCall(policy, record) => ApplyCommit(protocol, policy, g, record).0
    case BuildCall(policy, draft) => BuildCommit(protocol, policy, g, draft).0
    case ConfirmCall(commitId) => Confirm(g, commitId).0
    case AbandonCall => g.(pending := None)
    case MessageCall(generation) => g.(state := g.state.(generation := generation))
  }

  function Run(protocol: Protocol, g: Group, calls: seq<Call>): Group
    decreases |calls|
  {
    if calls == [] then g
    else Run(protocol, Step(protocol, g, calls[0]), calls[1..])
  }

  /** The library builds only commits that this device makes and that keep it in the group. */
  ghost predicate Sound(protocol: Protocol, owner: LeafOwner) {
    forall branch: Branch, draft: Bytes :: protocol.build(branch, draft).Some? ==>
      var built := protocol.build(branch, draft).value;
      && ByOwner(owner, built.change)
      && protocol.active(Branch(branch.epoch + 1, built.authenticator))
  }
}

/**
 * Private delivery schedules as values: a mailbox and a key for each of some consecutive days,
 * kept until everything written to the mailbox has expired.
 */
module PrivateDeliveryModel {
  import opened Prelude

  const DAY: int := 86400000
  const MAX_RETENTION: int := 30 * DAY
  const SCHEDULE_DAYS: nat := 8

  /** The latest time a `Date` holds. */
  const MAX_DATE: int := 8640000000000000

  datatype Descriptor = Descriptor(
    authorizationRevision: int,
    mailboxId: Text,
    maxCiphertextExpiresAt: int,
    recipientPublicKey: Text,
    validFrom: int,
    version: int,
    writeValidUntil: int)
  {
    predicate AcceptsWrite(now: int, expiresAt: int) {
      && IsSafe(now)
      && now >= validFrom
      && now < writeValidUntil
      && IsSafe(expiresAt)
      && expiresAt >= now
      && expiresAt <= maxCiphertextExpiresAt
    }

    predicate Covers(now: int) {
      now >= validFrom && now < writeValidUntil
    }
  }

  predicate IsSafe(value: int) {
    -MAX_SAFE_INTEGER <= value <= MAX_SAFE_INTEGER
  }

  /** The checks a descriptor is made with. */
  predicate AcceptsDescriptor(decode: Decoder, d: Descriptor) {
    && d.version == 1
    && IsSafe(d.authorizationRevision) && d.authorizationRevision >= 0
    && decode(d.mailboxId, 32).Some?
    && decode(d.recipientPublicKey, 32).Some?
    && IsSafe(d.validFrom) && d.validFrom >= 0
    && IsSafe(d.writeValidUntil) && d.writeValidUntil > d.validFrom
    && IsSafe(d.maxCiphertextExpiresAt) && d.maxCiphertextExpiresAt >= d.writeValidUntil
  }

  // ----- generating --------------------------------------------------------------------------

  /** None stands for a rejected time, and for the invalid date of one past every date. */
  function StartOfUtcDay(timestamp: int): Option<int> {
    if !IsSafe(timestamp) || timestamp < 0 || timestamp > MAX_DATE then None
    else Some(timestamp - timestamp % DAY)
  }

  function DescriptorOf(firstDay: int, index: nat, revision: int, retention: int, mailboxId: Text,
                        publicKey: Text): Descriptor {
    var validFrom := firstDay + index * DAY;
    Descriptor(revision, mailboxId, validFrom + DAY + retention, publicKey, validFrom, 1, validFrom + DAY)
  }

  predicate AcceptsRequest(now: int, revision: int, retention: int) {
    && IsSafe(revision) && revision >= 0
    && IsSafe(retention) && 0 <= retention <= MAX_RETENTION
    && StartOfUtcDay(now).Some?
  }

  /** The mailboxes of a generated schedule; identifiers and public keys are drawn by the caller. */
  function Generated(now: int, revision: int, retention: int, mailboxIds: seq<Text>,
                     publicKeys: seq<Text>): (ds: seq<Descriptor>)
    requires AcceptsRequest(now, revision, retention)
    requires |mailboxIds| == |publicKeys| == SCHEDULE_DAYS
    ensures |ds| == SCHEDULE_DAYS
  {
    seq(SCHEDULE_DAYS, i requires 0 <= i < SCHEDULE_DAYS =>
      DescriptorOf(StartOfUtcDay(now).value, i, revision, retention, mailboxIds[i], publicKeys[i]))
  }

  // ----- a signed sequence -------------------------------------------------------------------

  function MailboxIds(ds: seq<Descriptor>): (ids: seq<Text>)
    ensures |ids| == |ds| && forall i :: 0 <= i < |ds| ==> ids[i] == ds[i].mailboxId
  {
    seq(|ds|, i requires 0 <= i < |ds| => ds[i].mailboxId)
  }

  function PublicKeys(ds: seq<Descriptor>): (keys: seq<Text>)
    ensures |keys| == |ds| && forall i :: 0 <= i < |ds| ==> keys[i] == ds[i].recipientPublicKey
  {
    seq(|ds|, i requires 0 <= i < |ds| => ds[i].recipientPublicKey)
  }

  predicate AcceptsSequence(ds: seq<Descriptor>) {
    && ds != []
    && |SetOf(MailboxIds(ds))| == |ds|
    && |SetOf(PublicKeys(ds))| == |ds|
    && var retention := ds[0].maxCiphertextExpiresAt - ds[0].writeValidUntil;
       && retention <= MAX_RETENTION
       && forall i :: 0 <= i < |ds| ==>
            && ds[i].writeValidUntil - ds[i].validFrom == DAY
            && ds[i].maxCiphertextExpiresAt - ds[i].writeValidUntil == retention
            && (i > 0 ==> ds[i].validFrom == ds[i - 1].writeValidUntil)
  }

  /** Consecutive days from a start, each kept as long after it as the others. */
  ghost predicate Consecutive(ds: seq<Descriptor>, start: int, retention: int) {
    forall i :: 0 <= i < |ds| ==> Spans(ds[i], start + i * DAY, retention)
  }

  ghost predicate Spans(d: Descriptor, from: int, retention: int) {
    && d.validFrom == from
    && d.writeValidUntil == from + DAY
    && d.maxCiphertextExpiresAt == from + DAY + retention
  }

  ghost predicate NoneShared(ds: seq<Descriptor>) {
    forall i, j :: 0 <= i < j < |ds| ==>
      ds[i].mailboxId != ds[j].mailboxId && ds[i].recipientPublicKey != ds[j].recipientPublicKey
  }

  lemma {:induction false} SetSizesTellShared(ds: seq<Descriptor>)
    ensures |SetOf(MailboxIds(ds))| == |ds| && |SetOf(PublicKeys(ds))| == |ds| <==> NoneShared(ds)
  {
    SetSizeTellsDistinct(MailboxIds(ds));
    SetSizeTellsDistinct(PublicKeys(ds));
    assert NoneShared(ds) <==> Distinct(MailboxIds(ds)) && Distinct(PublicKeys(ds));
  }

  lemma {:induction false} ChainedIsConsecutive(ds: seq<Descriptor>, retention: int, i: nat)
    requires i < |ds|
    requires forall i :: 0 <= i < |ds| ==>
               && ds[i].writeValidUntil - ds[i].validFrom == DAY
               && ds[i].maxCiphertextExpiresAt - ds[i].writeValidUntil == retention
               && (i > 0 ==> ds[i].validFrom == ds[i - 1].writeValidUntil)
    ensures Spans(ds[i], ds[0].validFrom + i * DAY, retention)
    decreases i
  {
    if i > 0 {
      ChainedIsConsecutive(ds, retention, i - 1);
    }
  }

  /** A sequence is accepted exactly if it is some consecutive days, sharing no mailbox and no key. */
  lemma {:induction false} AcceptsExactlyConsecutive(ds: seq<Descriptor>)
    ensures AcceptsSequence(ds)
            <==> ds != [] && NoneShared(ds)
                 && exists retention :: retention <= MAX_RETENTION && Consecutive(ds, ds[0].validFrom, retention)
  {
    SetSizesTellShared(ds);
    if AcceptsSequence(ds) {
      var retention := ds[0].maxCiphertextExpiresAt - ds[0].writeValidUntil;
      forall i | 0 <= i < |ds|
        ensures Spans(ds[i], ds[0].validFrom + i * DAY, retention)
      {
        ChainedIsConsecutive(ds, retention, i);
      }
      assert Consecutive(ds, ds[0].validFrom, retention);
    }
    if ds != [] && NoneShared(ds)
       && exists retention :: retention <= MAX_RETENTION && Consecutive(ds, ds[0].validFrom, retention)
    {
      var retention :| retention <= MAX_RETENTION && Consecutive(ds, ds[0].validFrom, retention);
      assert forall i :: 0 <= i < |ds| ==> Spans(ds[i], ds[0].validFrom + i * DAY, retention);
    }
  }

  // ----- what is generated -------------------------------------------------------------------

  /** Every descriptor generated passes the checks of descriptors, for any accepted request. */
  lemma {:induction false} GeneratedPass(decode: Decoder, now: int, revision: int, retention: int,
                                         mailboxIds: seq<Text>, publicKeys: seq<Text>)
    requires AcceptsRequest(now, revision, retention)
    requires |mailboxIds| == |publicKeys| == SCHEDULE_DAYS
    requires forall i :: 0 <= i < SCHEDULE_DAYS ==> decode(mailboxIds[i], 32).Some? && decode(publicKeys[i], 32).Some?
    ensures forall d :: d in Generated(now, revision, retention, mailboxIds, publicKeys) ==>
            AcceptsDescriptor(decode, d)
  {
  }

  /** A generated schedule is a sequence the verifier accepts, the first of its days today. */
  lemma {:induction false} GeneratedIsAccepted(now: int, revision: int, retention: int, mailboxIds: seq<Text>,
                                               publicKeys: seq<Text>)
    requires AcceptsRequest(now, revision, retention)
    requires |mailboxIds| == |publicKeys| == SCHEDULE_DAYS && Distinct(mailboxIds) && Distinct(publicKeys)
    ensures var ds := Generated(now, revision, retention, mailboxIds, publicKeys);
            && AcceptsSequence(ds)
            && Consecutive(ds, ds[0].validFrom, retention)
            && NoneShared(ds)
            && ds[0].Covers(now) && ds[0].validFrom % DAY == 0
            && forall i :: 0 <= i < SCHEDULE_DAYS ==>
                 && ds[i].mailboxId == mailboxIds[i] && ds[i].recipientPublicKey == publicKeys[i]
                 && ds[i].authorizationRevision == revision
  {
    var ds := Generated(now, revision, retention, mailboxIds, publicKeys);
    assert Consecutive(ds, ds[0].validFrom, retention);
    AcceptsExactlyConsecutive(ds);
    assert now - now % DAY == now / DAY * DAY;
  }

  // ----- looking up a day --------------------------------------------------------------------

  /** The first descriptor that covers a time. */
  function DescriptorFor(ds: seq<Descriptor>, now: int): Option<Descriptor> {
    if ds == [] then None
    else if ds[0].Covers(now) then Some(ds[0])
    else DescriptorFor(ds[1..], now)
  }

  lemma {:induction false} FirstThatCovers(ds: seq<Descriptor>, now: int, i: nat)
    requires i < |ds| && ds[i].Covers(now) && forall j :: 0 <= j < i ==> !ds[j].Covers(now)
    ensures DescriptorFor(ds, now) == Some(ds[i])
    decreases |ds|
  {
    if i > 0 {
      FirstThatCovers(ds[1..], now, i - 1);
    }
  }

  lemma {:induction false} NoneThatCovers(ds: seq<Descriptor>, now: int)
    requires forall i :: 0 <= i < |ds| ==> !ds[i].Covers(now)
    ensures DescriptorFor(ds, now) == None
    decreases |ds|
  {
    if ds != [] {
      NoneThatCovers(ds[1..], now);
    }
  }

  /** The descriptor found is that of the only day covering the time; one is found on all days scheduled. */
  lemma {:induction false} DescriptorForTheDay(ds: seq<Descriptor>, start: int, retention: int, now: int)
    requires Consecutive(ds, start, retention)
    ensures var day := (now - start) / DAY;
            && (forall i :: 0 <= i < |ds| && ds[i].Covers(now) ==> i == day)
            && DescriptorFor(ds, now) == (if 0 <= day < |ds| then Some(ds[day]) else None)
            && (0 <= day < |ds| <==> start <= now < start + |ds| * DAY)
  {
    var day := (now - start) / DAY;
    forall i | 0 <= i < |ds|
      ensures ds[i].Covers(now) <==> i == day
    {
      assert Spans(ds[i], start + i * DAY, retention);
    }
    if 0 <= day < |ds| {
      FirstThatCovers(ds, now, day);
    } else {
      NoneThatCovers(ds, now);
    }
  }

  // ----- entries, and what time and revocation leave of them ---------------------------------

  datatype Entry = Entry(descriptor: Descriptor, privateKey: Bytes)

  function Descriptors(entries: seq<Entry>): (ds: seq<Descriptor>)
    ensures |ds| == |entries| && forall i :: 0 <= i < |entries| ==> ds[i] == entries[i].descriptor
  {
    seq(|entries|, i requires 0 <= i < |entries| => entries[i].descriptor)
  }

  function Filtered(entries: seq<Entry>, keep: Descriptor -> bool): seq<Entry> {
    if entries == [] then []
    else (if keep(entries[0].descriptor) then [entries[0]] else []) + Filtered(entries[1..], keep)
  }

  function Retired(entries: seq<Entry>, now: int): seq<Entry> {
    Filtered(entries, (d: Descriptor) => now <= d.maxCiphertextExpiresAt)
  }

  /** The entries after retiring at each of some times in turn. */
  function RetiredAll(entries: seq<Entry>, times: seq<int>): seq<Entry>
    decreases |times|
  {
    if times == [] then entries else RetiredAll(Retired(entries, times[0]), times[1..])
  }

  ghost predicate LastsThrough(d: Descriptor, times: seq<int>) {
    forall i :: 0 <= i < |times| ==> times[i] <= d.maxCiphertextExpiresAt
  }

  lemma {:induction false} FilteredTail(entries: seq<Entry>, keep: Descriptor -> bool) returns (k: nat)
    requires forall i, j :: 0 <= i < j < |entries| && keep(entries[i].descriptor) ==> keep(entries[j].descriptor)
    ensures k <= |entries| && Filtered(entries, keep) == entries[k..]
    ensures forall i :: 0 <= i < |entries| ==> (keep(entries[i].descriptor) <==> i >= k)
    decreases |entries|
  {
    if entries == [] {
      k := 0;
    } else {
      var rest := entries[1..];
      var n := FilteredTail(rest, keep);
      if keep(entries[0].descriptor) {
        k := 0;
        assert rest != [] ==> keep(rest[0].descriptor);
        assert entries == [entries[0]] + rest;
      } else {
        k := n + 1;
        assert entries[k..] == rest[n..];
      }
    }
  }

  /** Retiring at one time leaves the days still in use then, a tail of the schedule. */
  lemma {:induction false} RetiredIsTail(entries: seq<Entry>, start: int, retention: int, now: int) returns (k: nat)
    requires Consecutive(Descriptors(entries), start, retention)
    ensures k <= |entries| && Retired(entries, now) == entries[k..]
    ensures forall i :: 0 <= i < |entries| ==> (now <= entries[i].descriptor.maxCiphertextExpiresAt <==> i >= k)
  {
    var keep := (d: Descriptor) => now <= d.maxCiphertextExpiresAt;
    forall i, j | 0 <= i < j < |entries| && keep(entries[i].descriptor)
      ensures keep(entries[j].descriptor)
    {
      assert Spans(Descriptors(entries)[i], start + i * DAY, retention);
      assert Spans(Descriptors(entries)[j], start + j * DAY, retention);
    }
    k := FilteredTail(entries, keep);
  }

  /**
   * Retiring any number of times, at any times, leaves a tail of the schedule: the days that
   * outlast every one of the times.
   */
  lemma {:induction false} RetiredAllIsTail(entries: seq<Entry>, start: int, retention: int,
                                            times: seq<int>) returns (k: nat)
    requires Consecutive(Descriptors(entries), start, retention)
    ensures k <= |entries| && RetiredAll(entries, times) == entries[k..]
    ensures forall i :: 0 <= i < |entries| ==> (LastsThrough(entries[i].descriptor, times) <==> i >= k)
    decreases |times|
  {
    if times == [] {
      k := 0;
    } else {
      var first := RetiredIsTail(entries, start, retention, times[0]);
      assert Descriptors(entries[first..]) == Descriptors(entries)[first..];
      var rest := RetiredAllIsTail(entries[first..], start + first * DAY, retention, times[1..]);
      k := first + rest;
      assert entries[first..][rest..] == entries[k..];
      forall i | 0 <= i < |entries|
        ensures LastsThrough(entries[i].descriptor, times) <==> i >= k
      {
        assert i >= first ==> entries[i] == entries[first..][i - first];
      }
    }
  }

  /** While any day is left, the verifier still accepts what is left. */
  lemma {:induction false} RetiredAllIsAccepted(entries: seq<Entry>, start: int, retention: int, times: seq<int>)
    requires Consecutive(Descriptors(entries), start, retention) && AcceptsSequence(Descriptors(entries))
    requires RetiredAll(entries, times) != []
    ensures AcceptsSequence(Descriptors(RetiredAll(entries, times)))
  {
    var k := RetiredAllIsTail(entries, start, retention, times);
    assert Descriptors(entries[k..]) == Descriptors(entries)[k..];
    TailIsAccepted(Descriptors(entries), k);
  }

  lemma {:induction false} TailIsAccepted(ds: seq<Descriptor>, k: nat)
    requires AcceptsSequence(ds) && k < |ds|
    ensures AcceptsSequence(ds[k..])
  {
    var tail := ds[k..];
    SetSizesTellShared(ds);
    SetSizesTellShared(tail);
    assert forall i :: 0 <= i < |tail| ==> tail[i] == ds[k + i];
  }

  /**
   * Retiring destroys a day's key exactly once nothing written that day can still be open:
   * a key goes if and only if every expiry its descriptor ever accepts has passed.
   */
  lemma {:induction false} RetiresExactlyTheSpent(decode: Decoder, d: Descriptor, now: int)
    requires AcceptsDescriptor(decode, d)
    ensures now <= d.maxCiphertextExpiresAt
            <==> exists written, expiresAt :: d.AcceptsWrite(written, expiresAt) && now <= expiresAt
  {
    assert d.AcceptsWrite(d.validFrom, d.maxCiphertextExpiresAt);
  }

  // ----- opening -----------------------------------------------------------------------------

  /** The first entry for a mailbox. */
  function EntryFor(entries: seq<Entry>, mailboxId: Text): Option<Entry> {
    if entries == [] then None
    else if entries[0].descriptor.mailboxId == mailboxId then Some(entries[0])
    else EntryFor(entries[1..], mailboxId)
  }

  /** The key an envelope is opened with, if the schedule and every check of times allow. */
  function KeyToOpen(entries: seq<Entry>, mailboxId: Text, expiresAt: int, now: int): Option<Bytes> {
    match EntryFor(entries, mailboxId)
    case None => None
    case Some(entry) =>
      if now < entry.descriptor.validFrom || now > entry.descriptor.maxCiphertextExpiresAt
         || expiresAt > entry.descriptor.maxCiphertextExpiresAt
      then None
      else if !IsSafe(expiresAt) || expiresAt < 0 then None
      else if !IsSafe(now) || now < 0 || now > expiresAt then None
      else Some(entry.privateKey)
  }

  lemma {:induction false} EntryForIts(entries: seq<Entry>, i: nat)
    requires i < |entries| && NoneShared(Descriptors(entries))
    ensures EntryFor(entries, entries[i].descriptor.mailboxId) == Some(entries[i])
    decreases |entries|
  {
    if i > 0 {
      var ds := Descriptors(entries);
      assert ds[0].mailboxId != ds[i].mailboxId;
      assert Descriptors(entries[1..]) == ds[1..];
      assert NoneShared(ds[1..]) by {
        assert forall j :: 0 <= j < |ds| - 1 ==> ds[1..][j] == ds[j + 1];
      }
      EntryForIts(entries[1..], i - 1);
    }
  }

  /**
   * A write accepted for a scheduled day opens with that day's key at every time from the write
   * to its expiry, whatever retiring was done at times up to then.
   */
  lemma {:induction false} AcceptedWriteStaysOpen(decode: Decoder, entries: seq<Entry>, start: int, retention: int,
                                                  i: nat, written: int, expiresAt: int, times: seq<int>, now: int)
    requires Consecutive(Descriptors(entries), start, retention) && NoneShared(Descriptors(entries))
    requires i < |entries| && AcceptsDescriptor(decode, entries[i].descriptor)
    requires entries[i].descriptor.AcceptsWrite(written, expiresAt)
    requires forall j :: 0 <= j < |times| ==> times[j] <= now
    requires written <= now <= expiresAt
    ensures KeyToOpen(RetiredAll(entries, times), entries[i].descriptor.mailboxId, expiresAt, now)
            == Some(entries[i].privateKey)
  {
    var k := RetiredAllIsTail(entries, start, retention, times);
    assert LastsThrough(entries[i].descriptor, times);
    var left := entries[k..];
    var ds := Descriptors(entries);
    assert Descriptors(left) == ds[k..];
    assert NoneShared(ds[k..]) by {
      assert forall j :: 0 <= j < |ds| - k ==> ds[k..][j] == ds[k + j];
    }
    assert left[i - k] == entries[i];
    EntryForIts(left, i - k);
  }

  /** Nothing opens before its day, past its expiry, or with an expiry its day never accepted. */
  lemma {:induction false} OpensOnlyInTime(entries: seq<Entry>, mailboxId: Text, expiresAt: int, now: int)
    requires KeyToOpen(entries, mailboxId, expiresAt, now).Some?
    ensures exists i :: 0 <= i < |entries|
                        && entries[i].descriptor.mailboxId == mailboxId
                        && KeyToOpen(entries, mailboxId, expiresAt, now) == Some(entries[i].privateKey)
                        && entries[i].descriptor.validFrom <= now <= expiresAt
                        && expiresAt <= entries[i].descriptor.maxCiphertextExpiresAt
  {
    var i := EntryForIsOne(entries, mailboxId);
    assert entries[i].descriptor.mailboxId == mailboxId;
  }

  lemma {:induction false} EntryForIsOne(entries: seq<Entry>, mailboxId: Text) returns (i: nat)
    requires EntryFor(entries, mailboxId).Some?
    ensures i < |entries| && EntryFor(entries, mailboxId) == Some(entries[i])
    ensures entries[i].descriptor.mailboxId == mailboxId
    decreases |entries|
  {
    if entries[0].descriptor.mailboxId == mailboxId {
      i := 0;
    } else {
      var j := EntryForIsOne(entries[1..], mailboxId);
      i := j + 1;
    }
  }

  // ----- revoking ----------------------------------------------------------------------------

  predicate HasMailbox(entries: seq<Entry>, mailboxId: Text) {
    exists i :: 0 <= i < |entries| && entries[i].descriptor.mailboxId == mailboxId
  }

  predicate AcceptsRevocation(entries: seq<Entry>, mailboxIds: seq<Text>) {
    && |SetOf(mailboxIds)| == |mailboxIds|
    && forall id :: id in mailboxIds ==> HasMailbox(entries, id)
  }

  function Revoked(entries: seq<Entry>, mailboxIds: seq<Text>): seq<Entry> {
    Filtered(entries, (d: Descriptor) => d.mailboxId !in mailboxIds)
  }

  /** A revoked mailbox opens nothing any more, and every other opens exactly what it did. */
  lemma {:induction false} RevokesOnlyThose(entries: seq<Entry>, mailboxIds: seq<Text>, mailboxId: Text)
    ensures EntryFor(Revoked(entries, mailboxIds), mailboxId)
            == if mailboxId in mailboxIds then None else EntryFor(entries, mailboxId)
    decreases |entries|
  {
    if entries != [] {
      RevokesOnlyThose(entries[1..], mailboxIds, mailboxId);
      var left, rest := Revoked(entries, mailboxIds), Revoked(entries[1..], mailboxIds);
      if entries[0].descriptor.mailboxId in mailboxIds {
        assert left == rest;
      } else {
        assert left == [entries[0]] + rest && left[1..] == rest;
      }
    }
  }

  lemma {:induction false} FilteredFrom(entries: seq<Entry>, keep: Descriptor -> bool, i: nat) returns (j: nat)
    requires i < |Filtered(entries, keep)|
    ensures j < |entries| && Filtered(entries, keep)[i] == entries[j] && keep(entries[j].descriptor)
    decreases |entries|
  {
    var head := if keep(entries[0].descriptor) then 1 else 0;
    if i < head {
      j := 0;
    } else {
      var n := FilteredFrom(entries[1..], keep, i - head);
      j := n + 1;
    }
  }

  lemma {:induction false} FilteredKeeps(entries: seq<Entry>, keep: Descriptor -> bool, j: nat) returns (i: nat)
    requires j < |entries| && keep(entries[j].descriptor)
    ensures i < |Filtered(entries, keep)| && Filtered(entries, keep)[i] == entries[j]
    decreases |entries|
  {
    if j == 0 {
      i := 0;
    } else {
      var n := FilteredKeeps(entries[1..], keep, j - 1);
      i := n + if keep(entries[0].descriptor) then 1 else 0;
    }
  }

  lemma {:induction false} FilteredInterval(entries: seq<Entry>, keep: Descriptor -> bool, a: nat, b: nat)
    requires a <= b <= |entries|
    requires forall i :: 0 <= i < |entries| ==> (keep(entries[i].descriptor) <==> a <= i < b)
    ensures Filtered(entries, keep) == entries[a..b]
    decreases |entries|
  {
    if entries != [] {
      var rest := entries[1..];
      if a > 0 {
        FilteredInterval(rest, keep, a - 1, b - 1);
        assert rest[a - 1..b - 1] == entries[a..b];
      } else if b > 0 {
        FilteredInterval(rest, keep, 0, b - 1);
        assert [entries[0]] + rest[..b - 1] == entries[..b];
      } else {
        FilteredInterval(rest, keep, 0, 0);
      }
    }
  }

  /** Whether the days not revoked are the days from one up to another. */
  ghost predicate LeavesInterval(entries: seq<Entry>, mailboxIds: seq<Text>, a: nat, b: nat) {
    a < b <= |entries|
    && forall i :: 0 <= i < |entries| ==> (entries[i].descriptor.mailboxId !in mailboxIds <==> a <= i < b)
  }

  lemma {:induction false} IntervalIsAccepted(ds: seq<Descriptor>, a: nat, b: nat)
    requires AcceptsSequence(ds) && a < b <= |ds|
    ensures AcceptsSequence(ds[a..b])
  {
    var init := ds[..b];
    SetSizesTellShared(ds);
    SetSizesTellShared(init);
    assert forall i :: 0 <= i < b ==> init[i] == ds[i];
    assert AcceptsSequence(init);
    TailIsAccepted(init, a);
    assert init[a..] == ds[a..b];
  }

  /** What survives a revocation and is accepted lies next to one another in the schedule. */
  lemma {:induction false} AcceptedSurvivorsAdjoin(entries: seq<Entry>, start: int, retention: int, left: seq<Entry>,
                                                   keep: Descriptor -> bool) returns (a: nat)
    requires Consecutive(Descriptors(entries), start, retention)
    requires left == Filtered(entries, keep) && AcceptsSequence(Descriptors(left))
    ensures a + |left| <= |entries| && left == entries[a..a + |left|]
  {
    var ds, kept := Descriptors(entries), Descriptors(left);
    AcceptsExactlyConsecutive(kept);
    var own :| own <= MAX_RETENTION && Consecutive(kept, kept[0].validFrom, own);
    a := FilteredFrom(entries, keep, 0);
    forall i | 0 <= i < |left|
      ensures a + i < |entries| && left[i] == entries[a + i]
    {
      var j := FilteredFrom(entries, keep, i);
      assert Spans(kept[i], kept[0].validFrom + i * DAY, own);
      assert Spans(ds[j], start + j * DAY, retention) && Spans(ds[a], start + a * DAY, retention);
      assert j == a + i;
    }
    var last := |left| - 1;
    assert left[last] == entries[a + last];
  }

  lemma {:induction false} KeptLiesWithin(entries: seq<Entry>, left: seq<Entry>, keep: Descriptor -> bool, a: nat,
                                          i: nat)
    requires NoneShared(Descriptors(entries)) && left == Filtered(entries, keep)
    requires a + |left| <= |entries| && left == entries[a..a + |left|]
    requires i < |entries| && keep(entries[i].descriptor)
    ensures a <= i < a + |left|
  {
    var ds := Descriptors(entries);
    var n := FilteredKeeps(entries, keep, i);
    assert left[n] == entries[a + n];
    assert ds[i].mailboxId == ds[a + n].mailboxId;
  }

  lemma {:induction false} SurvivorsAreInterval(entries: seq<Entry>, mailboxIds: seq<Text>, left: seq<Entry>,
                                                keep: Descriptor -> bool, a: nat)
    requires NoneShared(Descriptors(entries))
    requires forall d :: keep(d) == (d.mailboxId !in mailboxIds)
    requires left == Filtered(entries, keep) && left != []
    requires a + |left| <= |entries| && left == entries[a..a + |left|]
    ensures LeavesInterval(entries, mailboxIds, a, a + |left|)
  {
    forall i | 0 <= i < |entries|
      ensures entries[i].descriptor.mailboxId !in mailboxIds <==> a <= i < a + |left|
    {
      if a <= i < a + |left| {
        var j := FilteredFrom(entries, keep, i - a);
        assert entries[i] == left[i - a];
      } else if keep(entries[i].descriptor) {
        KeptLiesWithin(entries, left, keep, a, i);
      }
    }
  }

  lemma {:induction false} IntervalLeftIsAccepted(entries: seq<Entry>, mailboxIds: seq<Text>, a: nat, b: nat)
    requires AcceptsSequence(Descriptors(entries)) && LeavesInterval(entries, mailboxIds, a, b)
    ensures AcceptsSequence(Descriptors(Revoked(entries, mailboxIds)))
  {
    FilteredInterval(entries, (d: Descriptor) => d.mailboxId !in mailboxIds, a, b);
    IntervalIsAccepted(Descriptors(entries), a, b);
    assert Descriptors(entries[a..b]) == Descriptors(entries)[a..b];
  }

  /** A revoked schedule is still a sequence the verifier accepts exactly if the days left adjoin. */
  lemma {:induction false} RevokedIsAcceptedExactly(entries: seq<Entry>, start: int, retention: int,
                                                    mailboxIds: seq<Text>)
    requires Consecutive(Descriptors(entries), start, retention) && AcceptsSequence(Descriptors(entries))
    ensures AcceptsSequence(Descriptors(Revoked(entries, mailboxIds)))
            <==> exists a: nat, b: nat :: LeavesInterval(entries, mailboxIds, a, b)
  {
    var keep := (d: Descriptor) => d.mailboxId !in mailboxIds;
    var left := Filtered(entries, keep);
    if AcceptsSequence(Descriptors(left)) {
      var a := AcceptedSurvivorsAdjoin(entries, start, retention, left, keep);
      SetSizesTellShared(Descriptors(entries));
      SurvivorsAreInterval(entries, mailboxIds, left, keep, a);
    }
    if exists a: nat, b: nat :: LeavesInterval(entries, mailboxIds, a, b) {
      var a: nat, b: nat :| LeavesInterval(entries, mailboxIds, a, b);
      IntervalLeftIsAccepted(entries, mailboxIds, a, b);
    }
  }
}

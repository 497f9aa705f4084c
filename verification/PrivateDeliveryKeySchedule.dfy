/**
 * The schedule as an object that owns its private keys: a transition copies the keys it keeps
 * into a new schedule, then zeroes its own and is of no more use.
 */
module PrivateDeliveryKeySchedules {
  import opened Prelude
  import opened PrivateDeliveryModel

  datatype Held = Held(descriptor: Descriptor, privateKey: array<Byte>)

  ghost function KeysOf(held: seq<Held>): set<object> {
    set i | 0 <= i < |held| :: held[i].privateKey as object
  }

  ghost function Seen(held: seq<Held>): (entries: seq<Entry>)
    reads KeysOf(held)
    ensures |entries| == |held|
    ensures forall i :: 0 <= i < |held| ==> entries[i] == Entry(held[i].descriptor, held[i].privateKey[..])
  {
    if held == [] then []
    else
      var last := held[|held| - 1];
      assert forall i :: 0 <= i < |held| - 1 ==> held[..|held| - 1][i] == held[i];
      assert last.privateKey in KeysOf(held);
      assert KeysOf(held[..|held| - 1]) <= KeysOf(held);
      Seen(held[..|held| - 1]) + [Entry(last.descriptor, last.privateKey[..])]
  }

  ghost predicate NoneAliased(held: seq<Held>) {
    forall i, j :: 0 <= i < j < |held| ==> held[i].privateKey != held[j].privateKey
  }

  ghost predicate AllZero(held: seq<Held>)
    reads KeysOf(held)
  {
    forall i, k :: 0 <= i < |held| && 0 <= k < held[i].privateKey.Length ==> held[i].privateKey[k] == 0
  }

  lemma {:induction false} FilteredAppend(entries: seq<Entry>, keep: Descriptor -> bool, last: Entry)
    ensures Filtered(entries + [last], keep) == Filtered(entries, keep) + (if keep(last.descriptor) then [last] else [])
    decreases |entries|
  {
    if entries == [] {
      assert [last][1..] == [];
    } else {
      FilteredAppend(entries[1..], keep, last);
      assert (entries + [last])[1..] == entries[1..] + [last];
    }
  }

  lemma {:induction false} AppendSeen(held: seq<Held>, last: Held)
    ensures Seen(held + [last]) == Seen(held) + [Entry(last.descriptor, last.privateKey[..])]
    ensures KeysOf(held + [last]) == KeysOf(held) + {last.privateKey}
  {
  }

  method Fill(key: array<Byte>)
    modifies key
    ensures forall k :: 0 <= k < key.Length ==> key[k] == 0
  {
    for k := 0 to key.Length
      invariant forall j :: 0 <= j < k ==> key[j] == 0
    {
      key[k] := 0;
    }
  }

  method Copy(key: array<Byte>) returns (copy: array<Byte>)
    ensures fresh(copy) && copy[..] == key[..]
  {
    copy := new Byte[key.Length](k requires 0 <= k < key.Length reads key => key[k]);
  }

  method KeyOnto(held: seq<Held>, d: Descriptor, privateKey: Bytes) returns (more: seq<Held>)
    requires NoneAliased(held)
    ensures NoneAliased(more) && fresh(KeysOf(more) - KeysOf(held)) && |more| == |held| + 1
    ensures Seen(more) == Seen(held) + [Entry(d, privateKey)]
  {
    ghost var before := KeysOf(held);
    var key := new Byte[|privateKey|](k requires 0 <= k < |privateKey| => privateKey[k]);
    assert key !in before && key[..] == privateKey;
    more := held + [Held(d, key)];
    AppendSeen(held, Held(d, key));
  }

  lemma {:induction false} FirstEntryFor(entries: seq<Entry>, mailboxId: Text, i: nat)
    requires i < |entries| && entries[i].descriptor.mailboxId == mailboxId
    requires forall j :: 0 <= j < i ==> entries[j].descriptor.mailboxId != mailboxId
    ensures EntryFor(entries, mailboxId) == Some(entries[i])
    decreases |entries|
  {
    if i > 0 {
      FirstEntryFor(entries[1..], mailboxId, i - 1);
    }
  }

  lemma {:induction false} NoEntryFor(entries: seq<Entry>, mailboxId: Text)
    requires forall j :: 0 <= j < |entries| ==> entries[j].descriptor.mailboxId != mailboxId
    ensures EntryFor(entries, mailboxId) == None
    decreases |entries|
  {
    if entries != [] {
      NoEntryFor(entries[1..], mailboxId);
    }
  }

  method Copies(retained: seq<Held>) returns (copied: seq<Held>)
    ensures |copied| == |retained| && NoneAliased(copied)
    ensures forall i :: 0 <= i < |copied| ==> fresh(copied[i].privateKey)
    ensures forall i :: 0 <= i < |copied| ==> copied[i].descriptor == retained[i].descriptor
    ensures forall i :: 0 <= i < |copied| ==> copied[i].privateKey[..] == retained[i].privateKey[..]
  {
    copied := [];
    for i := 0 to |retained|
      invariant |copied| == i && NoneAliased(copied)
      invariant forall j :: 0 <= j < i ==> fresh(copied[j].privateKey)
      invariant forall j :: 0 <= j < i ==> copied[j].descriptor == retained[j].descriptor
      invariant forall j :: 0 <= j < i ==> copied[j].privateKey[..] == retained[j].privateKey[..]
    {
      var copy := Copy(retained[i].privateKey);
      copied := copied + [Held(retained[i].descriptor, copy)];
    }
  }

  lemma {:induction false} SeenAlike(copied: seq<Held>, retained: seq<Held>)
    requires |copied| == |retained|
    requires forall i :: 0 <= i < |copied| ==> copied[i].descriptor == retained[i].descriptor
    requires forall i :: 0 <= i < |copied| ==> copied[i].privateKey[..] == retained[i].privateKey[..]
    ensures Seen(copied) == Seen(retained)
  {
  }

  class PrivateDeliveryKeySchedule {
    const entries: seq<Held>
    var destroyed: bool

    ghost function View(): seq<Entry>
      reads KeysOf(entries)
    {
      Seen(entries)
    }

    constructor (held: seq<Held>)
      ensures entries == held && !destroyed
    {
      entries, destroyed := held, false;
    }

    method Destroy()
      requires NoneAliased(entries)
      modifies this`destroyed, KeysOf(entries)
      ensures destroyed
      ensures if old(destroyed) then View() == old(View()) else AllZero(entries)
    {
      if destroyed {
        return;
      }
      for i := 0 to |entries|
        invariant destroyed == old(destroyed)
        invariant AllZero(entries[..i])
      {
        assert entries[i].privateKey in KeysOf(entries);
        Fill(entries[i].privateKey);
        forall j, k | 0 <= j <= i && 0 <= k < entries[j].privateKey.Length
          ensures entries[j].privateKey[k] == 0
        {
          assert j < i ==> entries[..i][j] == entries[j];
        }
      }
      assert entries[..|entries|] == entries;
      destroyed := true;
    }

    /** None stands for the rejection by a destroyed schedule. */
    method Transition(retained: seq<Held>) returns (next: Option<PrivateDeliveryKeySchedule>)
      requires NoneAliased(entries)
      requires KeysOf(retained) <= KeysOf(entries)
      modifies this`destroyed, KeysOf(entries)
      ensures old(destroyed) ==> next.None? && destroyed && View() == old(View())
      ensures !old(destroyed) ==> next.Some? && destroyed && AllZero(entries)
      ensures next.Some? ==> fresh(next.value) && !next.value.destroyed
                             && fresh(KeysOf(next.value.entries)) && NoneAliased(next.value.entries)
                             && next.value.View() == old(Seen(retained))
    {
      if destroyed {
        return None;
      }
      var copied := Copies(retained);
      SeenAlike(copied, retained);
      Destroy();
      var made := new PrivateDeliveryKeySchedule(copied);
      return Some(made);
    }

    /** The entries whose keys outlast a time. */
    method Outlasting(now: int) returns (retained: seq<Held>)
      ensures KeysOf(retained) <= KeysOf(entries)
      ensures Seen(retained) == Retired(View(), now)
    {
      retained := [];
      ghost var keep := (d: Descriptor) => now <= d.maxCiphertextExpiresAt;
      for i := 0 to |entries|
        invariant KeysOf(retained) <= KeysOf(entries)
        invariant Seen(retained) == Filtered(View()[..i], keep)
      {
        FilteredAppend(View()[..i], keep, View()[i]);
        assert View()[..i + 1] == View()[..i] + [View()[i]];
        if now <= entries[i].descriptor.maxCiphertextExpiresAt {
          AppendSeen(retained, entries[i]);
          retained := retained + [entries[i]];
        }
      }
      assert View()[..|entries|] == View();
    }

    method Retire(now: int) returns (next: Option<PrivateDeliveryKeySchedule>)
      requires NoneAliased(entries)
      modifies this`destroyed, KeysOf(entries)
      ensures next.Some? <==> !old(destroyed) && IsSafe(now) && now >= 0
      ensures next.Some? ==> destroyed && AllZero(entries)
                             && fresh(next.value) && !next.value.destroyed
                             && fresh(KeysOf(next.value.entries)) && NoneAliased(next.value.entries)
                             && next.value.View() == Retired(old(View()), now)
      ensures next.None? ==> destroyed == old(destroyed) && View() == old(View())
    {
      if !IsSafe(now) || now < 0 {
        return None;
      }
      var retained := Outlasting(now);
      next := Transition(retained);
    }

    /** The entries whose mailboxes are not among some. */
    method Unrevoked(mailboxIds: seq<Text>) returns (retained: seq<Held>)
      ensures KeysOf(retained) <= KeysOf(entries)
      ensures Seen(retained) == Revoked(View(), mailboxIds)
    {
      retained := [];
      ghost var keep := (d: Descriptor) => d.mailboxId !in mailboxIds;
      for i := 0 to |entries|
        invariant KeysOf(retained) <= KeysOf(entries)
        invariant Seen(retained) == Filtered(View()[..i], keep)
      {
        FilteredAppend(View()[..i], keep, View()[i]);
        assert View()[..i + 1] == View()[..i] + [View()[i]];
        if entries[i].descriptor.mailboxId !in mailboxIds {
          AppendSeen(retained, entries[i]);
          retained := retained + [entries[i]];
        }
      }
      assert View()[..|entries|] == View();
    }

    method IsHeld(mailboxId: Text) returns (held: bool)
      ensures held <==> HasMailbox(View(), mailboxId)
    {
      for i := 0 to |entries|
        invariant forall j :: 0 <= j < i ==> View()[j].descriptor.mailboxId != mailboxId
      {
        if entries[i].descriptor.mailboxId == mailboxId {
          assert View()[i].descriptor.mailboxId == mailboxId;
          return true;
        }
      }
      return false;
    }

    method HoldsAll(mailboxIds: seq<Text>) returns (known: bool)
      ensures known <==> forall id :: id in mailboxIds ==> HasMailbox(View(), id)
    {
      for i := 0 to |mailboxIds|
        invariant forall id :: id in mailboxIds[..i] ==> HasMailbox(View(), id)
      {
        var held := IsHeld(mailboxIds[i]);
        if !held {
          assert mailboxIds[i] in mailboxIds;
          return false;
        }
        assert mailboxIds[..i + 1] == mailboxIds[..i] + [mailboxIds[i]];
      }
      assert mailboxIds[..|mailboxIds|] == mailboxIds;
      return true;
    }

    method Revoke(mailboxIds: seq<Text>) returns (next: Option<PrivateDeliveryKeySchedule>)
      requires NoneAliased(entries)
      modifies this`destroyed, KeysOf(entries)
      ensures next.Some? <==> !old(destroyed) && AcceptsRevocation(old(View()), mailboxIds)
      ensures next.Some? ==> destroyed && AllZero(entries)
                             && fresh(next.value) && !next.value.destroyed
                             && fresh(KeysOf(next.value.entries)) && NoneAliased(next.value.entries)
                             && next.value.View() == Revoked(old(View()), mailboxIds)
      ensures next.None? ==> destroyed == old(destroyed) && View() == old(View())
    {
      if destroyed || |SetOf(mailboxIds)| != |mailboxIds| {
        return None;
      }
      var known := HoldsAll(mailboxIds);
      if !known {
        return None;
      }
      var retained := Unrevoked(mailboxIds);
      next := Transition(retained);
    }

    method DescriptorFor(now: int) returns (found: Option<Descriptor>)
      ensures found == if destroyed then None else PrivateDeliveryModel.DescriptorFor(Descriptors(View()), now)
    {
      found := None;
      if !destroyed {
        ghost var ds := Descriptors(View());
        for i := 0 to |entries|
          invariant forall j :: 0 <= j < i ==> !ds[j].Covers(now)
        {
          if now >= entries[i].descriptor.validFrom && now < entries[i].descriptor.writeValidUntil {
            FirstThatCovers(ds, now, i);
            return Some(entries[i].descriptor);
          }
        }
        NoneThatCovers(ds, now);
      }
    }

    /** The key an envelope for a mailbox is opened with at a time. */
    method Open(mailboxId: Text, expiresAt: int, now: int) returns (key: Option<Bytes>)
      ensures key == if destroyed then None else KeyToOpen(View(), mailboxId, expiresAt, now)
    {
      if destroyed {
        return None;
      }
      for i := 0 to |entries|
        invariant forall j :: 0 <= j < i ==> View()[j].descriptor.mailboxId != mailboxId
      {
        var d := entries[i].descriptor;
        if d.mailboxId == mailboxId {
          FirstEntryFor(View(), mailboxId, i);
          if now < d.validFrom || now > d.maxCiphertextExpiresAt || expiresAt > d.maxCiphertextExpiresAt {
            return None;
          }
          if !IsSafe(expiresAt) || expiresAt < 0 || !IsSafe(now) || now < 0 || now > expiresAt {
            return None;
          }
          return Some(entries[i].privateKey[..]);
        }
      }
      NoEntryFor(View(), mailboxId);
      return None;
    }

    /** Identifiers and key pairs are drawn by the caller. */
    static method Generate(decode: Decoder, now: int, revision: int, retention: int, mailboxIds: seq<Text>,
                           publicKeys: seq<Text>, privateKeys: seq<Bytes>)
      returns (made: Option<PrivateDeliveryKeySchedule>)
      requires |mailboxIds| == |publicKeys| == |privateKeys| == SCHEDULE_DAYS
      requires forall i :: 0 <= i < SCHEDULE_DAYS ==> decode(mailboxIds[i], 32).Some? && decode(publicKeys[i], 32).Some?
      ensures made.Some? <==> AcceptsRequest(now, revision, retention)
      ensures made.Some? ==> fresh(made.value) && !made.value.destroyed
                             && fresh(KeysOf(made.value.entries)) && NoneAliased(made.value.entries)
                             && Descriptors(made.value.View())
                               == Generated(now, revision, retention, mailboxIds, publicKeys)
                             && forall i :: 0 <= i < SCHEDULE_DAYS ==> made.value.View()[i].privateKey == privateKeys[i]
    {
      if !IsSafe(revision) || revision < 0 || !IsSafe(retention) || retention < 0 || retention > MAX_RETENTION {
        return None;
      }
      var firstDay := StartOfUtcDay(now);
      if firstDay.None? {
        return None;
      }
      ghost var ds := Generated(now, revision, retention, mailboxIds, publicKeys);
      GeneratedPass(decode, now, revision, retention, mailboxIds, publicKeys);
      var held: seq<Held> := [];
      for index := 0 to SCHEDULE_DAYS
        invariant NoneAliased(held) && fresh(KeysOf(held)) && |held| == index
        invariant forall i :: 0 <= i < index ==> Seen(held)[i] == Entry(ds[i], privateKeys[i])
      {
        var validFrom := firstDay.value + index * DAY;
        var writeValidUntil := validFrom + DAY;
        var d := Descriptor(revision, mailboxIds[index], writeValidUntil + retention, publicKeys[index],
                            validFrom, 1, writeValidUntil);
        assert d == ds[index];
        if !AcceptsDescriptor(decode, d) {
          return None;
        }
        held := KeyOnto(held, d, privateKeys[index]);
      }
      var schedule := new PrivateDeliveryKeySchedule(held);
      return Some(schedule);
    }
  }
}

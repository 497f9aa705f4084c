/** The bytes a proof of work is about, the work a digest shows, and the nonces searched. */
module ProofOfWorkEncoding {
  import opened Prelude
  import opened BigEndian
  import opened Buffers
  import opened Sorting

  const IDENTITY_ADMISSION_DOMAIN := "pigeon-identity-admission:v2"
  const MAILBOX_CREATION_DOMAIN := "pigeon-mailbox-creation:v2"
  const MAX_FIELD_LENGTH: nat := 256
  const MAX_NETWORK_IDS: nat := 64
  const MAX_NONCE_LENGTH: nat := 16
  const MIN_DIFFICULTY_BITS: nat := 1
  const MAX_DIFFICULTY_BITS: nat := 32

  // ----- preimages ---------------------------------------------------------------------------

  predicate IsField(value: string) {
    && 1 <= |value| <= MAX_FIELD_LENGTH
    && forall i :: 0 <= i < |value| ==> '!' <= value[i] <= '~'
  }

  /** Character codes, each cut to a byte. */
  function Chars(value: string): (bytes: Bytes)
    ensures |bytes| == |value| && forall i :: 0 <= i < |value| ==> bytes[i] == value[i] as int % 0x100
  {
    seq(|value|, i requires 0 <= i < |value| => value[i] as int % 0x100)
  }

  function LengthPrefixed(value: string): Bytes {
    Word(|value|) + Chars(value)
  }

  function Field(value: string): Option<Bytes> {
    if IsField(value) then Some(LengthPrefixed(value)) else None
  }

  /** The fields in order; none if any is malformed. */
  function Fields(values: seq<string>): Option<seq<Bytes>> {
    if values == [] then Some([])
    else
      var first, rest := Field(values[0]), Fields(values[1..]);
      if first.None? || rest.None? then None else Some([first.value] + rest.value)
  }

  function NetworkIds(networkIds: seq<string>): Option<seq<Bytes>> {
    if networkIds == [] || |networkIds| > MAX_NETWORK_IDS || |SetOf(networkIds)| != |networkIds| then None
    else Fields(Sort(networkIds))
  }

  function IdentityAdmission(identityId: string, networkIds: seq<string>): Option<Bytes> {
    var identity, networks := Field(identityId), NetworkIds(networkIds);
    if identity.None? || networks.None? then None
    else Some(Concat([LengthPrefixed(IDENTITY_ADMISSION_DOMAIN), identity.value, Word(|networks.value|)]
                     + networks.value))
  }

  function MailboxCreation(mailboxId: string, postTokenHash: string, readTokenHash: string): Option<Bytes> {
    var mailbox, post, read := Field(mailboxId), Field(postTokenHash), Field(readTokenHash);
    if mailbox.None? || post.None? || read.None? then None
    else Some(Concat([LengthPrefixed(MAILBOX_CREATION_DOMAIN), mailbox.value, post.value, read.value]))
  }

  datatype Challenge =
    | Admission(identityId: string, networkIds: seq<string>)
    | Creation(mailboxId: string, postTokenHash: string, readTokenHash: string)

  function Encode(c: Challenge): Option<Bytes> {
    match c
    case Admission(identityId, networkIds) => IdentityAdmission(identityId, networkIds)
    case Creation(mailboxId, postTokenHash, readTokenHash) => MailboxCreation(mailboxId, postTokenHash, readTokenHash)
  }

  /** Alike in kind and fields, and in the set of networks, whatever their order. */
  ghost predicate SameChallenge(c: Challenge, d: Challenge) {
    match c
    case Admission(identityId, networkIds) =>
      d.Admission? && d.identityId == identityId && SetOf(d.networkIds) == SetOf(networkIds)
    case Creation(_, _, _) => d == c
  }

  // ----- unique decoding ---------------------------------------------------------------------

  ghost predicate FitsBytes(value: string) {
    |value| < WORD && forall i :: 0 <= i < |value| ==> value[i] as int < 0x100
  }

  /** What a length prefix starts can be told apart from what follows. */
  lemma {:induction false} PrefixCancels(a: string, x: Bytes, b: string, y: Bytes)
    requires FitsBytes(a) && FitsBytes(b) && LengthPrefixed(a) + x == LengthPrefixed(b) + y
    ensures a == b && x == y
  {
    assert LengthPrefixed(a) + x == Word(|a|) + (Chars(a) + x);
    assert LengthPrefixed(b) + y == Word(|b|) + (Chars(b) + y);
    WordCancels(|a|, Chars(a) + x, |b|, Chars(b) + y);
    assert Chars(a) == (Chars(a) + x)[..|a|] && Chars(b) == (Chars(b) + y)[..|b|];
    assert x == (Chars(a) + x)[|a|..] && y == (Chars(b) + y)[|b|..];
  }

  lemma {:induction false} FieldsFit(values: seq<string>)
    ensures Fields(values).Some? <==> forall i :: 0 <= i < |values| ==> IsField(values[i])
    ensures Fields(values).Some? ==> |Fields(values).value| == |values|
    decreases |values|
  {
    if values != [] {
      FieldsFit(values[1..]);
      assert values == [values[0]] + values[1..];
    }
  }

  /** The first field of some, and all that follows it. */
  lemma {:induction false} FieldsSplit(values: seq<string>, x: Bytes)
    requires values != [] && Fields(values).Some?
    ensures Fields(values[1..]).Some? && IsField(values[0])
    ensures Concat(Fields(values).value) + x == LengthPrefixed(values[0]) + (Concat(Fields(values[1..]).value) + x)
  {
  }

  lemma {:induction false} FieldsCancel(a: seq<string>, x: Bytes, b: seq<string>, y: Bytes)
    requires |a| == |b| && Fields(a).Some? && Fields(b).Some?
    requires Concat(Fields(a).value) + x == Concat(Fields(b).value) + y
    ensures a == b && x == y
    decreases |a|
  {
    if a == [] {
      assert Concat(Fields(a).value) + x == x && Concat(Fields(b).value) + y == y;
    } else {
      FieldsSplit(a, x);
      FieldsSplit(b, y);
      var u, v := Concat(Fields(a[1..]).value) + x, Concat(Fields(b[1..]).value) + y;
      PrefixCancels(a[0], u, b[0], v);
      FieldsCancel(a[1..], x, b[1..], y);
      assert a == [a[0]] + a[1..] && b == [b[0]] + b[1..];
    }
  }

  /** The bytes of an admission after its identity, and of a nonce. */
  function Networks(networkIds: seq<string>, x: Bytes): Bytes
    requires Fields(Sort(networkIds)).Some?
  {
    Word(|Sort(networkIds)|) + (Concat(Fields(Sort(networkIds)).value) + x)
  }

  lemma {:induction false} AdmissionBytes(identityId: string, networkIds: seq<string>, x: Bytes)
    requires IdentityAdmission(identityId, networkIds).Some?
    ensures NetworkIds(networkIds).Some? && Fields(Sort(networkIds)).Some? && IsField(identityId)
    ensures IdentityAdmission(identityId, networkIds).value + x
            == LengthPrefixed(IDENTITY_ADMISSION_DOMAIN) + (LengthPrefixed(identityId) + Networks(networkIds, x))
  {
    var networks := NetworkIds(networkIds).value;
    FieldsFit(Sort(networkIds));
    var a, b, c := LengthPrefixed(IDENTITY_ADMISSION_DOMAIN), LengthPrefixed(identityId), Word(|networks|);
    ConcatOne(c, networks, x);
    ConcatOne(b, [c] + networks, x);
    ConcatOne(a, [b] + ([c] + networks), x);
    assert [a] + ([b] + ([c] + networks)) == [a, b, c] + networks;
  }

  /** The bytes of a creation after its mailbox, and of what follows. */
  function Hashes(postTokenHash: string, readTokenHash: string, x: Bytes): Bytes {
    LengthPrefixed(postTokenHash) + (LengthPrefixed(readTokenHash) + x)
  }

  lemma {:induction false} CreationBytes(mailboxId: string, postTokenHash: string, readTokenHash: string, x: Bytes)
    requires MailboxCreation(mailboxId, postTokenHash, readTokenHash).Some?
    ensures IsField(mailboxId) && IsField(postTokenHash) && IsField(readTokenHash)
    ensures MailboxCreation(mailboxId, postTokenHash, readTokenHash).value + x
            == LengthPrefixed(MAILBOX_CREATION_DOMAIN)
               + (LengthPrefixed(mailboxId) + Hashes(postTokenHash, readTokenHash, x))
  {
    var a, b, c, d := LengthPrefixed(MAILBOX_CREATION_DOMAIN), LengthPrefixed(mailboxId), LengthPrefixed(postTokenHash),
                      LengthPrefixed(readTokenHash);
    ConcatOne(d, [], x);
    ConcatOne(c, [d], x);
    ConcatOne(b, [c, d], x);
    ConcatOne(a, [b, c, d], x);
    assert Concat([]) + x == x;
    assert [d] + [] == [d] && [c] + [d] == [c, d] && [b] + [c, d] == [b, c, d] && [a] + [b, c, d] == [a, b, c, d];
  }

  lemma {:induction false} NetworksAlike(s: seq<string>, n: string, t: seq<string>, m: string)
    requires |s| < WORD && |t| < WORD && Fields(s).Some? && Fields(t).Some? && FitsBytes(n) && FitsBytes(m)
    requires Word(|s|) + (Concat(Fields(s).value) + LengthPrefixed(n))
             == Word(|t|) + (Concat(Fields(t).value) + LengthPrefixed(m))
    ensures s == t && n == m
  {
    WordCancels(|s|, Concat(Fields(s).value) + LengthPrefixed(n), |t|, Concat(Fields(t).value) + LengthPrefixed(m));
    FieldsCancel(s, LengthPrefixed(n), t, LengthPrefixed(m));
    NoncesAlike(n, m);
  }

  lemma {:induction false} NoncesAlike(n: string, m: string)
    requires FitsBytes(n) && FitsBytes(m) && LengthPrefixed(n) == LengthPrefixed(m)
    ensures n == m
  {
    assert LengthPrefixed(n) + [] == LengthPrefixed(n) && LengthPrefixed(m) + [] == LengthPrefixed(m);
    PrefixCancels(n, [], m, []);
  }

  lemma {:induction false} TwoCancel(domain: string, a: string, u: Bytes, b: string, v: Bytes)
    requires FitsBytes(domain) && FitsBytes(a) && FitsBytes(b)
    requires LengthPrefixed(domain) + (LengthPrefixed(a) + u) == LengthPrefixed(domain) + (LengthPrefixed(b) + v)
    ensures a == b && u == v
  {
    PrefixCancels(domain, LengthPrefixed(a) + u, domain, LengthPrefixed(b) + v);
    PrefixCancels(a, u, b, v);
  }

  lemma {:induction false} NetworkSetsAlike(s: seq<string>, n: string, t: seq<string>, m: string)
    requires NetworkIds(s).Some? && NetworkIds(t).Some? && FitsBytes(n) && FitsBytes(m)
    requires Networks(s, LengthPrefixed(n)) == Networks(t, LengthPrefixed(m))
    ensures SetOf(s) == SetOf(t) && n == m
  {
    SortSorts(s);
    SortSorts(t);
    NetworksAlike(Sort(s), n, Sort(t), m);
    SetSizeTellsDistinct(s);
    SetSizeTellsDistinct(t);
    SetsSortAlike(s, t);
  }

  lemma {:induction false} DomainsFit()
    ensures FitsBytes(IDENTITY_ADMISSION_DOMAIN) && FitsBytes(MAILBOX_CREATION_DOMAIN)
    ensures |IDENTITY_ADMISSION_DOMAIN| != |MAILBOX_CREATION_DOMAIN|
  {
  }

  lemma {:induction false} AdmittedAlike(domain: string, id: string, ids: seq<string>, n: string, id': string,
                                         ids': seq<string>, m: string)
    requires FitsBytes(domain) && IsField(id) && IsField(id') && FitsBytes(n) && FitsBytes(m)
    requires NetworkIds(ids).Some? && NetworkIds(ids').Some?
    requires LengthPrefixed(domain) + (LengthPrefixed(id) + Networks(ids, LengthPrefixed(n)))
             == LengthPrefixed(domain) + (LengthPrefixed(id') + Networks(ids', LengthPrefixed(m)))
    ensures id == id' && SetOf(ids) == SetOf(ids') && n == m
  {
    TwoCancel(domain, id, Networks(ids, LengthPrefixed(n)), id', Networks(ids', LengthPrefixed(m)));
    NetworkSetsAlike(ids, n, ids', m);
  }

  lemma {:induction false} AdmissionsAlike(c: Challenge, n: string, d: Challenge, m: string)
    requires c.Admission? && d.Admission? && Encode(c).Some? && Encode(d).Some?
    requires FitsBytes(n) && FitsBytes(m)
    requires Encode(c).value + LengthPrefixed(n) == Encode(d).value + LengthPrefixed(m)
    ensures SameChallenge(c, d) && n == m
  {
    DomainsFit();
    AdmissionBytes(c.identityId, c.networkIds, LengthPrefixed(n));
    AdmissionBytes(d.identityId, d.networkIds, LengthPrefixed(m));
    AdmittedAlike(IDENTITY_ADMISSION_DOMAIN, c.identityId, c.networkIds, n, d.identityId, d.networkIds, m);
  }

  lemma {:induction false} CreatedAlike(domain: string, mailbox: string, post: string, read: string, n: string,
                                        mailbox': string, post': string, read': string, m: string)
    requires FitsBytes(domain) && FitsBytes(mailbox) && FitsBytes(mailbox') && FitsBytes(n) && FitsBytes(m)
    requires FitsBytes(post) && FitsBytes(post') && FitsBytes(read) && FitsBytes(read')
    requires LengthPrefixed(domain) + (LengthPrefixed(mailbox) + Hashes(post, read, LengthPrefixed(n)))
             == LengthPrefixed(domain) + (LengthPrefixed(mailbox') + Hashes(post', read', LengthPrefixed(m)))
    ensures mailbox == mailbox' && post == post' && read == read' && n == m
  {
    TwoCancel(domain, mailbox, Hashes(post, read, LengthPrefixed(n)), mailbox',
              Hashes(post', read', LengthPrefixed(m)));
    HashesAlike(post, read, n, post', read', m);
  }

  lemma {:induction false} CreationsAlike(c: Challenge, n: string, d: Challenge, m: string)
    requires c.Creation? && d.Creation? && Encode(c).Some? && Encode(d).Some?
    requires FitsBytes(n) && FitsBytes(m)
    requires Encode(c).value + LengthPrefixed(n) == Encode(d).value + LengthPrefixed(m)
    ensures c == d && n == m
  {
    DomainsFit();
    CreationBytes(c.mailboxId, c.postTokenHash, c.readTokenHash, LengthPrefixed(n));
    CreationBytes(d.mailboxId, d.postTokenHash, d.readTokenHash, LengthPrefixed(m));
    CreatedAlike(MAILBOX_CREATION_DOMAIN, c.mailboxId, c.postTokenHash, c.readTokenHash, n,
                 d.mailboxId, d.postTokenHash, d.readTokenHash, m);
  }

  lemma {:induction false} HashesAlike(post: string, read: string, n: string, post': string, read': string, m: string)
    requires FitsBytes(post) && FitsBytes(post') && FitsBytes(read) && FitsBytes(read') && FitsBytes(n) && FitsBytes(m)
    requires Hashes(post, read, LengthPrefixed(n)) == Hashes(post', read', LengthPrefixed(m))
    ensures post == post' && read == read' && n == m
  {
    TwoCancel(post, read, LengthPrefixed(n), read', LengthPrefixed(m)) by {
      PrefixCancels(post, LengthPrefixed(read) + LengthPrefixed(n), post', LengthPrefixed(read') + LengthPrefixed(m));
    }
    PrefixCancels(post, LengthPrefixed(read) + LengthPrefixed(n), post', LengthPrefixed(read') + LengthPrefixed(m));
    NoncesAlike(n, m);
  }

  /** The domains differ, so an admission never shares its bytes with a creation. */
  lemma {:induction false} LengthsApart(a: string, x: Bytes, b: string, y: Bytes)
    requires FitsBytes(a) && FitsBytes(b) && |a| != |b|
    ensures LengthPrefixed(a) + x != LengthPrefixed(b) + y
  {
    if LengthPrefixed(a) + x == LengthPrefixed(b) + y {
      PrefixCancels(a, x, b, y);
    }
  }

  lemma {:induction false} DomainsApart(x: Bytes, y: Bytes)
    ensures LengthPrefixed(IDENTITY_ADMISSION_DOMAIN) + x != LengthPrefixed(MAILBOX_CREATION_DOMAIN) + y
  {
    DomainsFit();
    LengthsApart(IDENTITY_ADMISSION_DOMAIN, x, MAILBOX_CREATION_DOMAIN, y);
  }

  lemma {:induction false} KindsApart(c: Challenge, x: Bytes, d: Challenge, y: Bytes)
    requires Encode(c).Some? && Encode(d).Some? && c.Admission? && d.Creation?
    ensures Encode(c).value + x != Encode(d).value + y
  {
    AdmissionBytes(c.identityId, c.networkIds, x);
    CreationBytes(d.mailboxId, d.postTokenHash, d.readTokenHash, y);
    DomainsApart(LengthPrefixed(c.identityId) + Networks(c.networkIds, x),
                 LengthPrefixed(d.mailboxId) + Hashes(d.postTokenHash, d.readTokenHash, y));
  }

  /**
   * A challenge and a nonce are hashed as the same bytes exactly if the challenges are of one
   * kind, with the same fields and the same set of networks in any order, and the nonces equal.
   */
  lemma {:induction false} PreimagesEqualExactly(c: Challenge, n: string, d: Challenge, m: string)
    requires Encode(c).Some? && Encode(d).Some? && FitsBytes(n) && FitsBytes(m)
    ensures Encode(c).value + LengthPrefixed(n) == Encode(d).value + LengthPrefixed(m)
            <==> SameChallenge(c, d) && n == m
  {
    if c.Admission? && d.Creation? {
      KindsApart(c, LengthPrefixed(n), d, LengthPrefixed(m));
    } else if c.Creation? && d.Admission? {
      KindsApart(d, LengthPrefixed(m), c, LengthPrefixed(n));
    } else if Encode(c).value + LengthPrefixed(n) == Encode(d).value + LengthPrefixed(m) {
      if c.Admission? {
        AdmissionsAlike(c, n, d, m);
      } else {
        CreationsAlike(c, n, d, m);
      }
    }
    if SameChallenge(c, d) && c.Admission? {
      SetSizeTellsDistinct(c.networkIds);
      SetSizeTellsDistinct(d.networkIds);
      SetsSortAlike(c.networkIds, d.networkIds);
    }
  }

  /** From 1 to 256 visible ASCII characters. */
  ghost predicate IsVisible(value: string) {
    1 <= |value| <= 256 && forall c :: c in value ==> 33 <= c as int <= 126
  }

  lemma {:induction false} FieldsAreVisible(value: string)
    ensures IsField(value) <==> IsVisible(value)
  {
    if IsVisible(value) {
      assert forall i :: 0 <= i < |value| ==> value[i] in value;
    }
  }

  lemma {:induction false} EncodesExactlyFields(c: Challenge)
    ensures Encode(c).Some? <==>
              match c
              case Admission(identityId, networkIds) =>
                && IsField(identityId)
                && 1 <= |networkIds| <= 64
                && Distinct(networkIds)
                && forall id :: id in networkIds ==> IsField(id)
              case Creation(mailboxId, postTokenHash, readTokenHash) =>
                IsField(mailboxId) && IsField(postTokenHash) && IsField(readTokenHash)
  {
    if c.Admission? {
      var s := c.networkIds;
      SetSizeTellsDistinct(s);
      FieldsFit(Sort(s));
      SortSorts(s);
      SameMembers(s, Sort(s));
      assert forall id :: id in s <==> id in SetOf(s);
      assert forall id :: id in Sort(s) <==> id in SetOf(Sort(s));
      assert (forall i :: 0 <= i < |s| ==> IsField(Sort(s)[i])) <==> forall id :: id in Sort(s) ==> IsField(id);
    }
  }

  /** Which challenges have bytes at all. */
  lemma {:induction false} EncodesExactlyWellFormed(c: Challenge)
    ensures Encode(c).Some? <==>
              match c
              case Admission(identityId, networkIds) =>
                && IsVisible(identityId)
                && 1 <= |networkIds| <= 64
                && Distinct(networkIds)
                && forall id :: id in networkIds ==> IsVisible(id)
              case Creation(mailboxId, postTokenHash, readTokenHash) =>
                IsVisible(mailboxId) && IsVisible(postTokenHash) && IsVisible(readTokenHash)
  {
    EncodesExactlyFields(c);
    match c
    case Admission(identityId, networkIds) =>
      FieldsAreVisible(identityId);
      forall id | id in networkIds
        ensures IsField(id) <==> IsVisible(id)
      {
        FieldsAreVisible(id);
      }
    case Creation(mailboxId, postTokenHash, readTokenHash) =>
      FieldsAreVisible(mailboxId);
      FieldsAreVisible(postTokenHash);
      FieldsAreVisible(readTokenHash);
  }

  // ----- filling buffers ---------------------------------------------------------------------

  method ConcatParts(parts: seq<Bytes>) returns (bytes: array<Byte>)
    ensures fresh(bytes) && bytes[..] == Concat(parts)
  {
    var length := 0;
    for i := 0 to |parts|
      invariant length == TotalLength(parts[..i])
    {
      assert parts[..i + 1][..i] == parts[..i];
      length := length + |parts[i]|;
    }
    assert parts[..|parts|] == parts;
    bytes := new Byte[length](_ => 0);
    var offset := 0;
    for i := 0 to |parts|
      invariant offset == TotalLength(parts[..i]) <= length
      invariant bytes[..offset] == Concat(parts[..i])
    {
      ConcatLength(parts, i + 1);
      assert parts[..i + 1] == parts[..i] + [parts[i]];
      ConcatAppend(parts[..i], parts[i]);
      ConcatLength(parts, i);
      Put(bytes, parts[i], offset);
      offset := offset + |parts[i]|;
    }
  }

  method LengthPrefixedBytes(value: string) returns (bytes: array<Byte>)
    ensures fresh(bytes) && bytes[..] == LengthPrefixed(value)
  {
    bytes := new Byte[4 + |value|](_ => 0);
    Put(bytes, Word(|value|), 0);
    for index := 0 to |value|
      invariant bytes[..4] == Word(|value|)
      invariant bytes[4..4 + index] == Chars(value)[..index]
    {
      bytes[4 + index] := value[index] as int % 0x100;
    }
    assert bytes[..] == bytes[..4] + bytes[4..];
  }
}

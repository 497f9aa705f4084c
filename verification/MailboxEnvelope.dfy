/** Mailbox envelopes: a plaintext padded to one of four sizes, sealed, and encoded. */
module MailboxEnvelope {
  import opened Prelude
  import opened BigEndian
  import opened Buffers
  import opened AuthenticatedCiphers
  import Base64 = CanonicalBase64Url

  const ENVELOPE_ID_LENGTH: nat := 16
  const IV_LENGTH: nat := 12
  const LENGTH_PREFIX_LENGTH: nat := 4
  const MAILBOX_ID_LENGTH: nat := 32
  const KEY_LENGTH: nat := 32
  const BUCKETS: seq<nat> := [1024, 4096, 16384, 65536]

  datatype Keys = Keys(envelopeKey: Bytes, mailboxId: string)

  predicate AcceptsKeys(keys: Keys, envelopeId: string) {
    && |keys.envelopeKey| == KEY_LENGTH
    && Base64.Decode(keys.mailboxId, MAILBOX_ID_LENGTH).Some?
    && Base64.Decode(envelopeId, ENVELOPE_ID_LENGTH).Some?
  }

  /** The mailbox and the envelope, told to the cipher. */
  function Context(keys: Keys, envelopeId: string): Bytes {
    var text := keys.mailboxId + "." + envelopeId;
    seq(|text|, i requires 0 <= i < |text| => text[i] as int % 0x100)
  }

  function FrameLength(bucket: nat): int {
    bucket - IV_LENGTH - TAG_LENGTH
  }

  /** The first of some sizes that passes a test. */
  function Find(sizes: seq<nat>, test: nat -> bool): Option<nat> {
    if sizes == [] then None else if test(sizes[0]) then Some(sizes[0]) else Find(sizes[1..], test)
  }

  function BucketFor(plaintextLength: int): Option<nat> {
    var bucket := Find(BUCKETS, (size: nat) => FrameLength(size) >= LENGTH_PREFIX_LENGTH + plaintextLength);
    if plaintextLength < 0 || plaintextLength > MAX_SAFE_INTEGER then None else bucket
  }

  function Zeros(n: nat): (zeros: Bytes)
    ensures |zeros| == n && forall i :: 0 <= i < n ==> zeros[i] == 0
  {
    seq(n, i => 0)
  }

  /** The plaintext after its length, then zeros to fill the frame of a bucket. */
  function Framed(plaintext: Bytes, bucket: nat): (framed: Bytes)
    requires FrameLength(bucket) >= LENGTH_PREFIX_LENGTH + |plaintext|
    ensures |framed| == FrameLength(bucket)
  {
    Word(|plaintext|) + plaintext + Zeros(FrameLength(bucket) - LENGTH_PREFIX_LENGTH - |plaintext|)
  }

  /** None stands for a rejected key, identifier or length; the nonce is drawn by the caller. */
  function Seal(cipher: Cipher, keys: Keys, envelopeId: string, plaintext: Bytes, iv: Bytes): Option<string> {
    var bucket := BucketFor(|plaintext|);
    if bucket.None? || !AcceptsKeys(keys, envelopeId) then None
    else
      BucketsFit(|plaintext|);
      var sealed := cipher.encrypt(keys.envelopeKey, iv, Context(keys, envelopeId), Framed(plaintext, bucket.value));
      Some(Base64.Encode(iv + sealed))
  }

  /** What a frame holds, if its length fits it and nothing but zeros follows. */
  function Unframed(framed: Bytes): Option<Bytes> {
    if |framed| < LENGTH_PREFIX_LENGTH then None
    else
      var end := LENGTH_PREFIX_LENGTH + WordAt(framed, 0);
      if end > |framed| || exists i :: end <= i < |framed| && framed[i] != 0 then None
      else Some(framed[LENGTH_PREFIX_LENGTH..end])
  }

  function Open(cipher: Cipher, keys: Keys, envelopeId: string, body: string): Option<Bytes> {
    var bucket := Find(BUCKETS, (size: nat) => |body| == Base64.CeilingDivide(size * 4, 3));
    if bucket.None? then None
    else
      var sealed := Base64.Decode(body, bucket.value);
      if sealed.None? || !AcceptsKeys(keys, envelopeId) || |sealed.value| < IV_LENGTH then None
      else
        match cipher.decrypt(keys.envelopeKey, sealed.value[..IV_LENGTH], Context(keys, envelopeId),
                             sealed.value[IV_LENGTH..])
        case None => None
        case Some(framed) => Unframed(framed)
  }

  // ----- buckets -----------------------------------------------------------------------------

  /** The bucket is the least that holds the plaintext; only plaintexts of 65504 bytes or fewer have one. */
  lemma {:induction false} BucketsFit(length: int)
    ensures BucketFor(length).Some? <==> 0 <= length <= 65504
    ensures BucketFor(length).Some? ==>
              && BucketFor(length).value in BUCKETS
              && FrameLength(BucketFor(length).value) >= LENGTH_PREFIX_LENGTH + length
              && forall size :: size in BUCKETS && size < BucketFor(length).value ==>
                                  FrameLength(size) < LENGTH_PREFIX_LENGTH + length
  {
  }

  /** Each bucket's bodies have a length of their own. */
  lemma {:induction false} BodiesTellBuckets(body: string, bucket: nat)
    requires bucket in BUCKETS && |body| == Base64.CeilingDivide(bucket * 4, 3)
    ensures Find(BUCKETS, (size: nat) => |body| == Base64.CeilingDivide(size * 4, 3)) == Some(bucket)
  {
  }

  // ----- frames ------------------------------------------------------------------------------

  lemma {:induction false} UnframesFramed(plaintext: Bytes, bucket: nat)
    requires FrameLength(bucket) >= LENGTH_PREFIX_LENGTH + |plaintext| && |plaintext| < WORD
    ensures Unframed(Framed(plaintext, bucket)) == Some(plaintext)
  {
    var framed := Framed(plaintext, bucket);
    assert framed[0..4] == Word(|plaintext|);
    WordRead(framed, 0, |plaintext|);
    assert framed[4..4 + |plaintext|] == plaintext;
  }

  /** A frame accepted is the one frame of what it holds. */
  lemma {:induction false} FramesUnframed(framed: Bytes, bucket: nat)
    requires |framed| == FrameLength(bucket) && Unframed(framed).Some?
    ensures FrameLength(bucket) >= LENGTH_PREFIX_LENGTH + |Unframed(framed).value|
    ensures Framed(Unframed(framed).value, bucket) == framed
  {
    var plaintext := Unframed(framed).value;
    var end := LENGTH_PREFIX_LENGTH + |plaintext|;
    WordWritten(framed, 0);
    assert framed[end..] == Zeros(|framed| - end);
    assert framed == framed[0..4] + framed[4..end] + framed[end..];
  }

  /** The frame, written into a zeroed buffer as sealing does. */
  method Frame(plaintext: Bytes, bucket: nat) returns (framed: array<Byte>)
    requires FrameLength(bucket) >= LENGTH_PREFIX_LENGTH + |plaintext|
    ensures fresh(framed) && framed[..] == Framed(plaintext, bucket)
  {
    var length: nat := FrameLength(bucket);
    framed := new Byte[length](_ => 0);
    ghost var end := 4 + |plaintext|;
    assert framed[4..][|plaintext|..] == Zeros(length - end);
    PutAfter(framed, Word(|plaintext|), 0, []);
    assert framed[4..][|plaintext|..] == framed[end..];
    PutAfter(framed, plaintext, 4, Word(|plaintext|));
    assert framed[..] == framed[..end] + framed[end..];
  }

  // ----- sealing and opening -----------------------------------------------------------------

  /** Exactly the plaintexts of 65504 bytes or fewer can be sealed, under keys that pass their checks. */
  lemma {:induction false} SealsExactly(cipher: Cipher, keys: Keys, envelopeId: string, plaintext: Bytes, iv: Bytes)
    ensures Seal(cipher, keys, envelopeId, plaintext, iv).Some?
            <==> && |plaintext| <= 65504 && |keys.envelopeKey| == 32
                 && Base64.Decode(keys.mailboxId, 32).Some? && Base64.Decode(envelopeId, 16).Some?
  {
  }

  /** A body with the plaintext's frame of a bucket, which sealing writes only if it is the least. */
  function SealedIn(cipher: Cipher, keys: Keys, envelopeId: string, plaintext: Bytes, iv: Bytes, bucket: nat): string
    requires FrameLength(bucket) >= LENGTH_PREFIX_LENGTH + |plaintext|
  {
    Base64.Encode(iv + cipher.encrypt(keys.envelopeKey, iv, Context(keys, envelopeId), Framed(plaintext, bucket)))
  }

  /** Every bucket that holds the plaintext opens to it. */
  lemma {:induction false} OpensFramed(cipher: Cipher, keys: Keys, envelopeId: string, plaintext: Bytes, iv: Bytes,
                                       bucket: nat)
    requires IsInverse(cipher) && |iv| == IV_LENGTH && AcceptsKeys(keys, envelopeId)
    requires bucket in BUCKETS && FrameLength(bucket) >= LENGTH_PREFIX_LENGTH + |plaintext|
    ensures var body := SealedIn(cipher, keys, envelopeId, plaintext, iv, bucket);
            && |body| == Base64.CeilingDivide(bucket * 4, 3)
            && Open(cipher, keys, envelopeId, body) == Some(plaintext)
  {
    var framed := Framed(plaintext, bucket);
    var sealed := cipher.encrypt(keys.envelopeKey, iv, Context(keys, envelopeId), framed);
    var body := Base64.Encode(iv + sealed);
    Base64.EncodedLength(iv + sealed);
    BodiesTellBuckets(body, bucket);
    Base64.DecodesExactlyEncodings(body, bucket, iv + sealed);
    assert (iv + sealed)[..IV_LENGTH] == iv && (iv + sealed)[IV_LENGTH..] == sealed;
    UnframesFramed(plaintext, bucket);
  }

  lemma {:induction false} SealsIn(cipher: Cipher, keys: Keys, envelopeId: string, plaintext: Bytes, iv: Bytes)
    requires BucketFor(|plaintext|).Some? && AcceptsKeys(keys, envelopeId)
    ensures var bucket := BucketFor(|plaintext|).value;
            && bucket in BUCKETS && FrameLength(bucket) >= LENGTH_PREFIX_LENGTH + |plaintext|
            && Seal(cipher, keys, envelopeId, plaintext, iv)
               == Some(SealedIn(cipher, keys, envelopeId, plaintext, iv, bucket))
  {
    BucketsFit(|plaintext|);
  }

  /** Opening undoes sealing. */
  lemma {:induction false} OpensSealed(cipher: Cipher, keys: Keys, envelopeId: string, plaintext: Bytes, iv: Bytes)
    requires IsInverse(cipher) && |iv| == IV_LENGTH
    requires Seal(cipher, keys, envelopeId, plaintext, iv).Some?
    ensures Open(cipher, keys, envelopeId, Seal(cipher, keys, envelopeId, plaintext, iv).value) == Some(plaintext)
  {
    SealsIn(cipher, keys, envelopeId, plaintext, iv);
    OpensFramed(cipher, keys, envelopeId, plaintext, iv, BucketFor(|plaintext|).value);
  }

  /** The bucket and the sealed bytes of a body that opens. */
  lemma {:induction false} OpensInBucket(cipher: Cipher, keys: Keys, envelopeId: string, body: string)
    returns (bucket: nat, sealed: Bytes)
    requires Open(cipher, keys, envelopeId, body).Some?
    ensures bucket in BUCKETS && |sealed| == bucket && body == Base64.Encode(sealed) && AcceptsKeys(keys, envelopeId)
    ensures var framed := cipher.decrypt(keys.envelopeKey, sealed[..IV_LENGTH], Context(keys, envelopeId),
                                         sealed[IV_LENGTH..]);
            framed.Some? && Open(cipher, keys, envelopeId, body) == Unframed(framed.value)
  {
    var test := (size: nat) => |body| == Base64.CeilingDivide(size * 4, 3);
    bucket := Find(BUCKETS, test).value;
    sealed := Base64.Decode(body, bucket).value;
    Base64.DecodesExactlyEncodings(body, bucket, sealed);
  }

  /** A body that opens is the sealing of what it opens to, in one of the four buckets. */
  lemma {:induction false} OpensOnlySealed(cipher: Cipher, keys: Keys, envelopeId: string, body: string)
    returns (iv: Bytes, bucket: nat)
    requires IsInverse(cipher) && Open(cipher, keys, envelopeId, body).Some?
    ensures AcceptsKeys(keys, envelopeId)
    ensures var plaintext := Open(cipher, keys, envelopeId, body).value;
            && |iv| == IV_LENGTH && bucket in BUCKETS
            && FrameLength(bucket) >= LENGTH_PREFIX_LENGTH + |plaintext|
            && |body| == Base64.CeilingDivide(bucket * 4, 3)
            && body == SealedIn(cipher, keys, envelopeId, plaintext, iv, bucket)
  {
    var sealed;
    bucket, sealed := OpensInBucket(cipher, keys, envelopeId, body);
    var rest := sealed[IV_LENGTH..];
    iv := sealed[..IV_LENGTH];
    var framed := cipher.decrypt(keys.envelopeKey, iv, Context(keys, envelopeId), rest).value;
    assert cipher.encrypt(keys.envelopeKey, iv, Context(keys, envelopeId), framed) == rest;
    assert iv + rest == sealed;
    Base64.EncodedLength(sealed);
    FramesUnframed(framed, bucket);
  }

  /** A body of one bucket's length is of that bucket. */
  lemma {:induction false} OneBucketALength(bucket: nat, other: nat)
    requires bucket in BUCKETS && other in BUCKETS
    requires Base64.CeilingDivide(bucket * 4, 3) == Base64.CeilingDivide(other * 4, 3)
    ensures bucket == other
  {
  }

  /** A body that opens is one that sealing writes exactly if it is as long as the least bucket makes it. */
  lemma {:induction false} SealsOpenedExactly(cipher: Cipher, keys: Keys, envelopeId: string, body: string)
    requires IsInverse(cipher) && Open(cipher, keys, envelopeId, body).Some?
    ensures var plaintext := Open(cipher, keys, envelopeId, body).value;
            && BucketFor(|plaintext|).Some?
            && ((exists iv: Bytes :: |iv| == IV_LENGTH && Seal(cipher, keys, envelopeId, plaintext, iv) == Some(body))
                <==> |body| == Base64.CeilingDivide(BucketFor(|plaintext|).value * 4, 3))
  {
    var plaintext := Open(cipher, keys, envelopeId, body).value;
    var iv, bucket := OpensOnlySealed(cipher, keys, envelopeId, body);
    BucketsFit(|plaintext|);
    SealsIn(cipher, keys, envelopeId, plaintext, iv);
    if |body| == Base64.CeilingDivide(BucketFor(|plaintext|).value * 4, 3) {
      OneBucketALength(bucket, BucketFor(|plaintext|).value);
    }
    forall nonce: Bytes | |nonce| == IV_LENGTH && Seal(cipher, keys, envelopeId, plaintext, nonce) == Some(body)
      ensures |body| == Base64.CeilingDivide(BucketFor(|plaintext|).value * 4, 3)
    {
      SealsIn(cipher, keys, envelopeId, plaintext, nonce);
      OpensFramed(cipher, keys, envelopeId, plaintext, nonce, BucketFor(|plaintext|).value);
    }
  }

  /** So the empty plaintext in the second bucket opens, and is no sealing. */
  lemma {:induction false} LargerBucketOpens(cipher: Cipher, keys: Keys, envelopeId: string, iv: Bytes)
    requires IsInverse(cipher) && |iv| == IV_LENGTH && AcceptsKeys(keys, envelopeId)
    ensures var body := SealedIn(cipher, keys, envelopeId, [], iv, 4096);
            && Open(cipher, keys, envelopeId, body) == Some([])
            && forall nonce: Bytes :: |nonce| == IV_LENGTH ==> Seal(cipher, keys, envelopeId, [], nonce) != Some(body)
  {
    assert BUCKETS[1] == 4096;
    OpensFramed(cipher, keys, envelopeId, [], iv, 4096);
    assert BucketFor(0) == Some(1024);
    SealsOpenedExactly(cipher, keys, envelopeId, SealedIn(cipher, keys, envelopeId, [], iv, 4096));
  }

  // ----- what a body is bound to -------------------------------------------------------------

  /** The associated data spells the 43 digits of the mailbox, a dot, and the 22 of the envelope. */
  ghost predicate Spells(aad: Bytes, mailboxId: string, envelopeId: string) {
    && |mailboxId| == 43 && |envelopeId| == 22 && |aad| == 66
    && (forall i :: 0 <= i < 43 ==> aad[i] == mailboxId[i] as int)
    && aad[43] == '.' as int
    && forall i :: 0 <= i < 22 ==> aad[44 + i] == envelopeId[i] as int
  }

  lemma {:induction false} IdentifierDigits(text: string, length: nat)
    requires Base64.Decode(text, length).Some?
    ensures |text| == Base64.CeilingDivide(length * 4, 3) && forall i :: 0 <= i < |text| ==> text[i] as int < 0x100
  {
    Base64.DecodesExactlyCanonical(text, length);
  }

  lemma {:induction false} ContextSpells(keys: Keys, envelopeId: string)
    requires AcceptsKeys(keys, envelopeId)
    ensures Spells(Context(keys, envelopeId), keys.mailboxId, envelopeId)
  {
    IdentifierDigits(keys.mailboxId, 32);
    IdentifierDigits(envelopeId, 16);
    ContextOf(keys, envelopeId);
  }

  lemma {:induction false} ContextOf(keys: Keys, envelopeId: string)
    requires |keys.mailboxId| == 43 && |envelopeId| == 22
    requires forall i :: 0 <= i < 43 ==> keys.mailboxId[i] as int < 0x100
    requires forall i :: 0 <= i < 22 ==> envelopeId[i] as int < 0x100
    ensures Spells(Context(keys, envelopeId), keys.mailboxId, envelopeId)
  {
    var text := keys.mailboxId + "." + envelopeId;
    assert forall i :: 0 <= i < 43 ==> text[i] == keys.mailboxId[i];
    assert forall i :: 0 <= i < 22 ==> text[44 + i] == envelopeId[i];
  }

  lemma {:induction false} SpellingTells(aad: Bytes, mailboxId: string, envelopeId: string, mailboxId': string,
                                         envelopeId': string)
    requires Spells(aad, mailboxId, envelopeId) && Spells(aad, mailboxId', envelopeId')
    ensures mailboxId == mailboxId' && envelopeId == envelopeId'
  {
    forall i | 0 <= i < 22
      ensures envelopeId[i] == envelopeId'[i]
    {
      assert aad[44 + i] == envelopeId[i] as int;
    }
  }

  /** What this key and nonce seal of a frame opens under no other key or associated data of that length. */
  ghost predicate Binds(cipher: Cipher, nonce: Bytes, frame: Bytes) {
    forall key, aad, key', aad' ::
      |key| == |key'| == 32 && |aad| == |aad'| == 66 && (key != key' || aad != aad') ==>
        cipher.decrypt(key', nonce, aad', cipher.encrypt(key, nonce, aad, frame)).None?
  }

  /**
   * A body sealed for one mailbox and envelope opens exactly under its own key, mailbox and
   * envelope, with a cipher that binds what it seals to its key and associated data.
   */
  lemma {:induction false} OpensOnlyWhereSealed(cipher: Cipher, keys: Keys, envelopeId: string, keys': Keys,
                                                envelopeId': string, plaintext: Bytes, iv: Bytes)
    requires IsInverse(cipher) && |iv| == IV_LENGTH && Seal(cipher, keys, envelopeId, plaintext, iv).Some?
    requires BucketFor(|plaintext|).Some?
             && FrameLength(BucketFor(|plaintext|).value) >= LENGTH_PREFIX_LENGTH + |plaintext|
             && Binds(cipher, iv, Framed(plaintext, BucketFor(|plaintext|).value))
    ensures var body := Seal(cipher, keys, envelopeId, plaintext, iv).value;
            Open(cipher, keys', envelopeId', body)
            == if keys' == keys && envelopeId' == envelopeId then Some(plaintext) else None
  {
    SealsIn(cipher, keys, envelopeId, plaintext, iv);
    if keys' == keys && envelopeId' == envelopeId {
      OpensSealed(cipher, keys, envelopeId, plaintext, iv);
    } else if AcceptsKeys(keys', envelopeId') {
      OpensNowhereElse(cipher, keys, envelopeId, keys', envelopeId', plaintext, iv, BucketFor(|plaintext|).value);
    }
  }

  lemma {:induction false} ContextsTell(keys: Keys, envelopeId: string, keys': Keys, envelopeId': string)
    requires AcceptsKeys(keys, envelopeId) && AcceptsKeys(keys', envelopeId')
    requires Context(keys, envelopeId) == Context(keys', envelopeId')
    ensures keys.mailboxId == keys'.mailboxId && envelopeId == envelopeId'
  {
    ContextSpells(keys, envelopeId);
    ContextSpells(keys', envelopeId');
    SpellingTells(Context(keys, envelopeId), keys.mailboxId, envelopeId, keys'.mailboxId, envelopeId');
  }

  /** A body of a bucket's length is decrypted with its first 12 bytes as nonce. */
  lemma {:induction false} OpenDecrypts(cipher: Cipher, keys: Keys, envelopeId: string, iv: Bytes, sealed: Bytes,
                                        bucket: nat)
    requires bucket in BUCKETS && |iv| == IV_LENGTH && |iv + sealed| == bucket && AcceptsKeys(keys, envelopeId)
    requires cipher.decrypt(keys.envelopeKey, iv, Context(keys, envelopeId), sealed).None?
    ensures Open(cipher, keys, envelopeId, Base64.Encode(iv + sealed)).None?
  {
    var body := Base64.Encode(iv + sealed);
    Base64.EncodedLength(iv + sealed);
    BodiesTellBuckets(body, bucket);
    Base64.DecodesExactlyEncodings(body, bucket, iv + sealed);
    assert (iv + sealed)[..IV_LENGTH] == iv && (iv + sealed)[IV_LENGTH..] == sealed;
  }

  lemma {:induction false} OpensNowhereElse(cipher: Cipher, keys: Keys, envelopeId: string, keys': Keys,
                                            envelopeId': string, plaintext: Bytes, iv: Bytes, bucket: nat)
    requires IsInverse(cipher) && |iv| == IV_LENGTH && AcceptsKeys(keys, envelopeId) && AcceptsKeys(keys', envelopeId')
    requires bucket in BUCKETS && FrameLength(bucket) >= LENGTH_PREFIX_LENGTH + |plaintext|
    requires keys' != keys || envelopeId' != envelopeId
    requires Binds(cipher, iv, Framed(plaintext, bucket))
    ensures Open(cipher, keys', envelopeId', SealedIn(cipher, keys, envelopeId, plaintext, iv, bucket)).None?
  {
    var sealed := cipher.encrypt(keys.envelopeKey, iv, Context(keys, envelopeId), Framed(plaintext, bucket));
    ContextSpells(keys, envelopeId);
    ContextSpells(keys', envelopeId');
    if Context(keys, envelopeId) == Context(keys', envelopeId') {
      ContextsTell(keys, envelopeId, keys', envelopeId');
    }
    OpenDecrypts(cipher, keys', envelopeId', iv, sealed, bucket);
  }
}

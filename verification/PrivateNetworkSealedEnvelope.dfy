/** Sealed envelopes of a private network, whose sealed length is recovered from their text. */
module PrivateNetworkSealedEnvelope {
  import opened Prelude
  import opened AuthenticatedCiphers
  import Base64 = CanonicalBase64Url

  const NONCE_LENGTH: nat := 12

  /** The fields of an envelope's text, which must be the text of exactly these and version 2. */
  datatype Envelope = Envelope(ciphertext: string, nonce: string)

  /** The length of that text; fields that need escapes are longer, and fail to decode anyway. */
  function TextLength(envelope: Envelope): nat {
    40 + |envelope.ciphertext| + |envelope.nonce|
  }

  function Seal(cipher: Cipher, key: Bytes, aad: Bytes, plaintext: Bytes, nonce: Bytes): Envelope {
    Envelope(Base64.Encode(cipher.encrypt(key, nonce, aad, plaintext)), Base64.Encode(nonce))
  }

  function Open(cipher: Cipher, key: Bytes, aad: Bytes, envelope: Envelope, maxPlaintextLength: nat): Option<Bytes> {
    if TextLength(envelope) > Base64.CeilingDivide((maxPlaintextLength + TAG_LENGTH) * 4, 3) + 64 then None
    else
      var sealedLength := |envelope.ciphertext| * 3 / 4;
      if sealedLength < TAG_LENGTH || sealedLength > maxPlaintextLength + TAG_LENGTH then None
      else
        var sealed := Base64.Decode(envelope.ciphertext, sealedLength);
        var nonce := Base64.Decode(envelope.nonce, NONCE_LENGTH);
        if sealed.None? || nonce.None? then None
        else
          var tag := |sealed.value| - TAG_LENGTH;
          cipher.decrypt(key, nonce.value, aad, sealed.value[..tag] + sealed.value[tag..])
  }

  /** Opening undoes sealing for every plaintext within the bound, and refuses every longer one. */
  lemma {:induction false} OpensSealed(cipher: Cipher, key: Bytes, aad: Bytes, plaintext: Bytes, nonce: Bytes,
                                       maxPlaintextLength: nat)
    requires IsInverse(cipher) && |nonce| == NONCE_LENGTH
    ensures Open(cipher, key, aad, Seal(cipher, key, aad, plaintext, nonce), maxPlaintextLength)
            == if |plaintext| <= maxPlaintextLength then Some(plaintext) else None
  {
    var sealed := cipher.encrypt(key, nonce, aad, plaintext);
    var envelope := Seal(cipher, key, aad, plaintext, nonce);
    Base64.EncodedLength(sealed);
    Base64.EncodedLength(nonce);
    Base64.LengthRecovered(|sealed|);
    if |plaintext| <= maxPlaintextLength {
      Base64.DecodesExactlyEncodings(envelope.ciphertext, |sealed|, sealed);
      Base64.DecodesExactlyEncodings(envelope.nonce, NONCE_LENGTH, nonce);
      assert sealed[..|sealed| - TAG_LENGTH] + sealed[|sealed| - TAG_LENGTH..] == sealed;
    }
  }

  /** An envelope that opens is the sealing of what it opens to, within the bound. */
  lemma {:induction false} OpensOnlySealed(cipher: Cipher, key: Bytes, aad: Bytes, envelope: Envelope,
                                           maxPlaintextLength: nat)
    requires IsInverse(cipher) && Open(cipher, key, aad, envelope, maxPlaintextLength).Some?
    ensures var plaintext := Open(cipher, key, aad, envelope, maxPlaintextLength).value;
            && |plaintext| <= maxPlaintextLength
            && exists nonce: Bytes :: |nonce| == NONCE_LENGTH && envelope == Seal(cipher, key, aad, plaintext, nonce)
  {
    var length := |envelope.ciphertext| * 3 / 4;
    var sealed := Base64.Decode(envelope.ciphertext, length).value;
    var nonce := Base64.Decode(envelope.nonce, NONCE_LENGTH).value;
    Base64.DecodesExactlyEncodings(envelope.ciphertext, length, sealed);
    Base64.DecodesExactlyEncodings(envelope.nonce, NONCE_LENGTH, nonce);
    var tag := |sealed| - TAG_LENGTH;
    assert sealed[..tag] + sealed[tag..] == sealed;
    var plaintext := cipher.decrypt(key, nonce, aad, sealed).value;
    assert envelope == Seal(cipher, key, aad, plaintext, nonce);
  }
}

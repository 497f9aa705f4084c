/** Some secrets as one byte string: a magic, their number, and each with its length before it. */
module BinarySecretCodec {
  import opened Prelude
  import opened BigEndian
  import opened Buffers

  const MAGIC: Bytes := [0x50, 0x53, 0x42, 0x01]
  const MAX_PARTS: nat := 255

  // ----- what is written, and what is read back ----------------------------------------------

  function Framed(part: Bytes): Bytes {
    Word(|part|) + part
  }

  function Frames(parts: seq<Bytes>): Bytes {
    if parts == [] then [] else Framed(parts[0]) + Frames(parts[1..])
  }

  /** None stands for the rejection of too few, too many, empty or too long parts. */
  function Encoded(parts: seq<Bytes>, maxBytes: int): Option<Bytes> {
    if parts == [] || |parts| > MAX_PARTS then None
    else if |Frames(parts)| + 5 > maxBytes || [] in parts then None
    else Some(MAGIC + [|parts|] + Frames(parts))
  }

  predicate HasHeader(encoded: Bytes, expectedParts: int, maxBytes: int) {
    && 5 <= |encoded| <= maxBytes
    && encoded[..4] == MAGIC
    && encoded[4] == expectedParts
  }

  /** The part at an offset and the offset after it. */
  function PartAt(encoded: Bytes, offset: nat): (read: Option<(Bytes, nat)>)
    ensures read.Some? ==> offset + 4 <= |encoded| && read.value.1 == offset + 4 + |read.value.0| <= |encoded|
  {
    if offset + 4 > |encoded| then None
    else
      var length, start := WordAt(encoded, offset), offset + 4;
      if length == 0 || start + length > |encoded| then None
      else Some((encoded[start..start + length], start + length))
  }

  /** So many parts from an offset to the very end. */
  function PartsFrom(encoded: Bytes, offset: nat, count: nat): Option<seq<Bytes>>
    decreases count
  {
    if count == 0 then if offset == |encoded| then Some([]) else None
    else
      match PartAt(encoded, offset)
      case None => None
      case Some((part, next)) =>
        match PartsFrom(encoded, next, count - 1)
        case None => None
        case Some(rest) => Some([part] + rest)
  }

  function Decoded(encoded: Bytes, expectedParts: int, maxBytes: int): Option<seq<Bytes>> {
    if !HasHeader(encoded, expectedParts, maxBytes) then None else PartsFrom(encoded, 5, expectedParts)
  }

  // ----- decoding what was encoded -----------------------------------------------------------

  lemma {:induction false} FrameRead(part: Bytes, encoded: Bytes, offset: nat, rest: Bytes)
    requires part != [] && |part| < WORD
    requires offset <= |encoded| && encoded[offset..] == Framed(part) + rest
    ensures PartAt(encoded, offset) == Some((part, offset + 4 + |part|))
    ensures encoded[offset + 4 + |part|..] == rest
  {
    var tail := encoded[offset..];
    assert |tail| == 4 + |part| + |rest|;
    assert encoded[offset..offset + 4] == tail[..4] == Word(|part|);
    WordRead(encoded, offset, |part|);
    assert encoded[offset + 4..offset + 4 + |part|] == tail[4..4 + |part|] == part;
    assert encoded[offset + 4 + |part|..] == tail[4 + |part|..];
  }

  ghost predicate AllShort(parts: seq<Bytes>) {
    forall i :: 0 <= i < |parts| ==> |parts[i]| < WORD
  }

  lemma {:induction false} FramesRead(parts: seq<Bytes>, encoded: Bytes, offset: nat)
    requires offset <= |encoded| && encoded[offset..] == Frames(parts)
    requires [] !in parts && AllShort(parts)
    ensures PartsFrom(encoded, offset, |parts|) == Some(parts)
    decreases |parts|
  {
    if parts != [] {
      assert parts[0] in parts && forall part :: part in parts[1..] ==> part in parts;
      assert |parts[0]| < WORD && AllShort(parts[1..]);
      FrameRead(parts[0], encoded, offset, Frames(parts[1..]));
      FramesRead(parts[1..], encoded, offset + 4 + |parts[0]|);
      assert parts == [parts[0]] + parts[1..];
    }
  }

  lemma {:induction false} ReadAreShort(encoded: Bytes, offset: nat, count: nat)
    requires PartsFrom(encoded, offset, count).Some?
    ensures var parts := PartsFrom(encoded, offset, count).value;
            AllShort(parts) && [] !in parts && |parts| == count
    decreases count
  {
    if count > 0 {
      WordWritten(encoded, offset);
      ReadAreShort(encoded, PartAt(encoded, offset).value.1, count - 1);
    }
  }

  /** What was encoded decodes to the same parts exactly if a length fits its word. */
  lemma {:induction false} DecodesEncoded(parts: seq<Bytes>, maxBytes: int)
    requires Encoded(parts, maxBytes).Some?
    ensures Decoded(Encoded(parts, maxBytes).value, |parts|, maxBytes) == Some(parts) <==> AllShort(parts)
  {
    var encoded := Encoded(parts, maxBytes).value;
    assert encoded[..4] == MAGIC && encoded[5..] == Frames(parts);
    if AllShort(parts) {
      FramesRead(parts, encoded, 5);
    }
    if Decoded(encoded, |parts|, maxBytes) == Some(parts) {
      ReadAreShort(encoded, 5, |parts|);
    }
  }

  lemma {:induction false} FramesBound(parts: seq<Bytes>, i: nat)
    requires i < |parts|
    ensures |parts[i]| + 4 <= |Frames(parts)|
    decreases |parts|
  {
    if i > 0 {
      FramesBound(parts[1..], i - 1);
    }
  }

  /** Below a bound that fits a word, every encoding decodes to its parts, and to no other number of them. */
  lemma {:induction false} DecodesEncodedBelowWord(parts: seq<Bytes>, maxBytes: int, expectedParts: int)
    requires maxBytes < WORD && Encoded(parts, maxBytes).Some?
    ensures Decoded(Encoded(parts, maxBytes).value, expectedParts, maxBytes)
            == if expectedParts == |parts| then Some(parts) else None
  {
    forall i | 0 <= i < |parts|
      ensures |parts[i]| < WORD
    {
      FramesBound(parts, i);
    }
    DecodesEncoded(parts, maxBytes);
  }

  // ----- encoding what was decoded -----------------------------------------------------------

  lemma {:induction false} FrameOfRead(encoded: Bytes, offset: nat)
    requires PartAt(encoded, offset).Some?
    ensures var (part, next) := PartAt(encoded, offset).value;
            Framed(part) + encoded[next..] == encoded[offset..]
  {
    var (part, next) := PartAt(encoded, offset).value;
    WordWritten(encoded, offset);
    assert encoded[offset..] == encoded[offset..offset + 4] + encoded[offset + 4..next] + encoded[next..];
  }

  lemma {:induction false} FramesOfRead(encoded: Bytes, offset: nat, count: nat)
    requires offset <= |encoded| && PartsFrom(encoded, offset, count).Some?
    ensures Frames(PartsFrom(encoded, offset, count).value) == encoded[offset..]
    decreases count
  {
    if count > 0 {
      var next := PartAt(encoded, offset).value.1;
      FramesOfRead(encoded, next, count - 1);
      FrameOfRead(encoded, offset);
      assert PartsFrom(encoded, offset, count).value[1..] == PartsFrom(encoded, next, count - 1).value;
    }
  }

  /**
   * What decodes is the one encoding of the parts read, but for the encoding of no parts, which
   * only the decoder takes.
   */
  lemma {:induction false} EncodesDecoded(encoded: Bytes, expectedParts: int, maxBytes: int)
    requires Decoded(encoded, expectedParts, maxBytes).Some?
    ensures Encoded(Decoded(encoded, expectedParts, maxBytes).value, maxBytes) == Some(encoded) <==> expectedParts > 0
  {
    ReadAreShort(encoded, 5, expectedParts);
    FramesOfRead(encoded, 5, expectedParts);
    assert encoded == encoded[..4] + [encoded[4]] + encoded[5..];
  }

  /** No parts: the five bytes that decode to none are never written. */
  lemma {:induction false} NoPartsDecode(encoded: Bytes, maxBytes: int)
    ensures Decoded(encoded, 0, maxBytes).Some? <==> encoded == MAGIC + [0] && maxBytes >= 5
    ensures Decoded(MAGIC + [0], 0, 5) == Some([]) && Encoded([], 5).None?
  {
    assert (MAGIC + [0])[..4] == MAGIC;
    if |encoded| == 5 {
      assert encoded == encoded[..4] + [encoded[4]];
    }
  }

  // ----- through a moving offset -------------------------------------------------------------

  lemma {:induction false} FramesAppend(parts: seq<Bytes>, last: Bytes)
    ensures Frames(parts + [last]) == Frames(parts) + Framed(last)
    decreases |parts|
  {
    if parts == [] {
      assert Frames([last][1..]) == [];
    } else {
      FramesAppend(parts[1..], last);
      assert (parts + [last])[1..] == parts[1..] + [last];
    }
  }

  lemma {:induction false} FramesPrefix(parts: seq<Bytes>, i: nat)
    requires i <= |parts|
    ensures |Frames(parts[..i])| <= |Frames(parts)|
    decreases |parts| - i
  {
    if i < |parts| {
      FramesAppend(parts[..i], parts[i]);
      assert parts[..i + 1] == parts[..i] + [parts[i]];
      FramesPrefix(parts, i + 1);
    } else {
      assert parts[..i] == parts;
    }
  }

  /** The length of an encoding, added up part by part; whether a part is empty. */
  method Measure(parts: seq<Bytes>) returns (length: nat, hasEmpty: bool)
    ensures length == 5 + |Frames(parts)| && hasEmpty == ([] in parts)
  {
    length, hasEmpty := 5, false;
    for i := 0 to |parts|
      invariant length == 5 + |Frames(parts[..i])| && hasEmpty == ([] in parts[..i])
    {
      assert parts[..i + 1] == parts[..i] + [parts[i]];
      FramesAppend(parts[..i], parts[i]);
      length := length + 4 + |parts[i]|;
      hasEmpty := hasEmpty || parts[i] == [];
    }
    assert parts[..|parts|] == parts;
  }

  method Encode(parts: seq<Bytes>, maxBytes: int) returns (encoded: Option<array<Byte>>)
    ensures encoded.Some? <==> Encoded(parts, maxBytes).Some?
    ensures encoded.Some? ==> fresh(encoded.value) && encoded.value[..] == Encoded(parts, maxBytes).value
  {
    if |parts| == 0 || |parts| > MAX_PARTS {
      return None;
    }
    var length, hasEmpty := Measure(parts);
    if length > maxBytes || hasEmpty {
      return None;
    }
    var bytes := new Byte[length](_ => 0);
    Put(bytes, MAGIC, 0);
    bytes[4] := |parts|;
    assert bytes[..5] == MAGIC + [|parts|];
    PutFrames(bytes, parts);
    return Some(bytes);
  }

  method PutFrames(bytes: array<Byte>, parts: seq<Bytes>)
    requires bytes.Length == 5 + |Frames(parts)|
    modifies bytes
    ensures bytes[..] == old(bytes[..5]) + Frames(parts)
  {
    ghost var done: Bytes := bytes[..5];
    var offset := 5;
    for i := 0 to |parts|
      invariant offset == |done| <= bytes.Length && bytes[..offset] == done
      invariant done == old(bytes[..5]) + Frames(parts[..i])
    {
      NextFrameFits(parts, i);
      done := AfterFrame(old(bytes[..5]), Frames(parts[..i]), Framed(parts[i]), done);
      PutFrame(bytes, parts[i], offset, done);
      offset := offset + 4 + |parts[i]|;
    }
    assert parts[..|parts|] == parts && bytes[..] == bytes[..offset];
  }

  ghost function AfterFrame(header: Bytes, frames: Bytes, frame: Bytes, before: Bytes): (after: Bytes)
    requires before == header + frames
    ensures after == before + frame && after == header + (frames + frame)
  {
    before + frame
  }

  lemma {:induction false} NextFrameFits(parts: seq<Bytes>, i: nat)
    requires i < |parts|
    ensures Frames(parts[..i + 1]) == Frames(parts[..i]) + Framed(parts[i])
    ensures |Frames(parts[..i])| + 4 + |parts[i]| <= |Frames(parts)|
  {
    assert parts[..i + 1] == parts[..i] + [parts[i]];
    FramesAppend(parts[..i], parts[i]);
    FramesPrefix(parts, i + 1);
  }

  method PutFrame(bytes: array<Byte>, part: Bytes, offset: nat, ghost after: Bytes)
    requires offset + 4 + |part| <= bytes.Length && after == bytes[..offset] + Framed(part)
    modifies bytes
    ensures bytes[..offset + 4 + |part|] == after
  {
    ghost var before := bytes[..offset];
    assert (before + Word(|part|)) + part == after;
    PutAfter(bytes, Word(|part|), offset, before);
    PutAfter(bytes, part, offset + 4, before + Word(|part|));
  }

  method Decode(encoded: array<Byte>, expectedParts: int, maxBytes: int) returns (decoded: Option<seq<Bytes>>)
    ensures decoded == Decoded(encoded[..], expectedParts, maxBytes)
  {
    if encoded.Length > maxBytes || encoded.Length < 5 || encoded[..4] != MAGIC || encoded[4] != expectedParts {
      return None;
    }
    var bytes := encoded[..];
    var parts: seq<Bytes> := [];
    var offset: nat := 5;
    JoinedFirst(PartsFrom(bytes, 5, expectedParts));
    for index := 0 to expectedParts
      invariant Decoded(bytes, expectedParts, maxBytes)
                == Joined(parts, PartsFrom(bytes, offset, expectedParts - index))
    {
      var read := PartAt(bytes, offset);
      if read.None? {
        return None;
      }
      var (part, next) := read.value;
      JoinedStep(parts, part, PartsFrom(bytes, next, expectedParts - index - 1));
      parts := parts + [part];
      offset := next;
    }
    if offset != encoded.Length {
      return None;
    }
    assert parts + [] == parts;
    return Some(parts);
  }

  function Joined(parts: seq<Bytes>, rest: Option<seq<Bytes>>): Option<seq<Bytes>> {
    if rest.None? then None else Some(parts + rest.value)
  }

  lemma {:induction false} JoinedFirst(rest: Option<seq<Bytes>>)
    ensures Joined([], rest) == rest
  {
    if rest.Some? {
      assert [] + rest.value == rest.value;
    }
  }

  lemma {:induction false} JoinedStep(parts: seq<Bytes>, part: Bytes, rest: Option<seq<Bytes>>)
    ensures Joined(parts, if rest.None? then None else Some([part] + rest.value)) == Joined(parts + [part], rest)
  {
    if rest.Some? {
      assert parts + ([part] + rest.value) == parts + [part] + rest.value;
    }
  }
}

/** Byte strings end to end, and filling byte arrays. */
module Buffers {
  import opened Prelude

  function Concat(parts: seq<Bytes>): Bytes {
    if parts == [] then [] else parts[0] + Concat(parts[1..])
  }

  lemma {:induction false} ConcatOne(part: Bytes, parts: seq<Bytes>, x: Bytes)
    ensures Concat([part] + parts) + x == part + (Concat(parts) + x)
  {
  }

  lemma {:induction false} ConcatAppend(parts: seq<Bytes>, last: Bytes)
    ensures Concat(parts + [last]) == Concat(parts) + last
    decreases |parts|
  {
    if parts == [] {
      assert [last][1..] == [];
    } else {
      ConcatAppend(parts[1..], last);
      assert (parts + [last])[1..] == parts[1..] + [last];
    }
  }

  function TotalLength(parts: seq<Bytes>): nat {
    if parts == [] then 0 else TotalLength(parts[..|parts| - 1]) + |parts[|parts| - 1]|
  }

  lemma {:induction false} ConcatLength(parts: seq<Bytes>, i: nat)
    requires i <= |parts|
    ensures |Concat(parts[..i])| == TotalLength(parts[..i]) <= TotalLength(parts)
    decreases |parts|
  {
    if parts != [] {
      var init := parts[..|parts| - 1];
      ConcatLength(init, if i < |parts| then i else i - 1);
      if i < |parts| {
        assert init[..i] == parts[..i];
      } else {
        assert init[..i - 1] == init && parts[..i] == parts && parts == init + [parts[|parts| - 1]];
        ConcatAppend(init, parts[|parts| - 1]);
      }
    }
  }

  method Put(bytes: array<Byte>, part: Bytes, offset: nat)
    requires offset + |part| <= bytes.Length
    modifies bytes
    ensures bytes[..offset] == old(bytes[..offset])
    ensures bytes[offset..offset + |part|] == part
    ensures bytes[offset + |part|..] == old(bytes[offset + |part|..])
  {
    for i := 0 to |part|
      invariant bytes[..offset] == old(bytes[..offset])
      invariant bytes[offset..offset + i] == part[..i]
      invariant bytes[offset + |part|..] == old(bytes[offset + |part|..])
    {
      bytes[offset + i] := part[i];
    }
  }

  /** Puts a part after those before it. */
  method PutAfter(bytes: array<Byte>, part: Bytes, offset: nat, ghost before: Bytes)
    requires offset + |part| <= bytes.Length && bytes[..offset] == before
    modifies bytes
    ensures bytes[..offset + |part|] == before + part
    ensures bytes[offset + |part|..] == old(bytes[offset + |part|..])
  {
    Put(bytes, part, offset);
    assert bytes[..offset + |part|] == bytes[..offset] + bytes[offset..offset + |part|];
  }
}

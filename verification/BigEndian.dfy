/** Numbers as bytes, most significant first. */
module BigEndian {
  import opened Prelude

  function Pow2(n: nat): (p: nat)
    ensures p >= 1
  {
    if n == 0 then 1 else 2 * Pow2(n - 1)
  }

  lemma {:induction false} Pow2Adds(a: nat, b: nat)
    ensures Pow2(a + b) == Pow2(a) * Pow2(b)
    decreases a
  {
    if a > 0 {
      Pow2Adds(a - 1, b);
      assert 2 * (Pow2(a - 1) * Pow2(b)) == (2 * Pow2(a - 1)) * Pow2(b);
    }
  }

  lemma {:induction false} Pow2Grows(a: nat, b: nat)
    requires a <= b
    ensures Pow2(a) <= Pow2(b)
    decreases b - a
  {
    if a < b {
      Pow2Grows(a, b - 1);
    }
  }

  /** The number some bytes spell. */
  function Value(bytes: Bytes): nat {
    if bytes == [] then 0 else Value(bytes[..|bytes| - 1]) * 0x100 + bytes[|bytes| - 1]
  }

  /** The last bytes of a number; what does not fit is cut off. */
  function Written(value: nat, count: nat): (bytes: Bytes)
    ensures |bytes| == count
    decreases count
  {
    if count == 0 then [] else Written(value / 0x100, count - 1) + [value % 0x100]
  }

  lemma {:induction false} ValueBound(bytes: Bytes)
    ensures Value(bytes) < Pow2(8 * |bytes|)
    decreases |bytes|
  {
    if bytes != [] {
      ValueBound(bytes[..|bytes| - 1]);
      Pow2Byte(|bytes| - 1);
    }
  }

  lemma {:induction false} Pow2Byte(count: nat)
    ensures Pow2(8 * (count + 1)) == 0x100 * Pow2(8 * count)
  {
    var n := 8 * count;
    assert Pow2(n + 2) == 4 * Pow2(n);
    assert Pow2(n + 4) == 4 * Pow2(n + 2);
    assert Pow2(n + 6) == 4 * Pow2(n + 4);
    assert Pow2(n + 8) == 4 * Pow2(n + 6);
  }

  lemma {:induction false} MultiplesApart(a: nat, b: nat, p: nat)
    ensures a < b ==> (a + 1) * p <= b * p
  {
  }

  lemma {:induction false} RemainderIs(value: nat, q: nat, p: nat, r: nat)
    requires r < p && value == q * p + r
    ensures value % p == r
  {
    var d := value / p;
    MultiplesApart(d, q, p);
    MultiplesApart(q, d, p);
    assert d * p + value % p == q * p + r;
  }

  lemma {:induction false} RemainderByByte(value: nat, p: nat)
    requires p > 0
    ensures value % (0x100 * p) == value / 0x100 % p * 0x100 + value % 0x100
  {
    var q, r := value / 0x100, value % 0x100;
    assert q == q / p * p + q % p;
    assert 0x100 * (q / p * p) == q / p * (0x100 * p);
    RemainderIs(value, q / p, 0x100 * p, q % p * 0x100 + r);
  }

  lemma {:induction false} WrittenValue(value: nat, count: nat)
    ensures Value(Written(value, count)) == value % Pow2(8 * count)
    decreases count
  {
    if count > 0 {
      WrittenValue(value / 0x100, count - 1);
      Pow2Byte(count - 1);
      RemainderByByte(value, Pow2(8 * (count - 1)));
      assert Written(value, count)[..count - 1] == Written(value / 0x100, count - 1);
    }
  }

  lemma {:induction false} ValueWritten(bytes: Bytes)
    ensures Written(Value(bytes), |bytes|) == bytes
    decreases |bytes|
  {
    if bytes != [] {
      var init := bytes[..|bytes| - 1];
      ValueWritten(init);
      assert Value(bytes) / 0x100 == Value(init) && Value(bytes) % 0x100 == bytes[|bytes| - 1];
    }
  }

  /** The first byte counts for all the places after it. */
  lemma {:induction false} ValueFirst(bytes: Bytes)
    requires bytes != []
    ensures Value(bytes) == bytes[0] * Pow2(8 * (|bytes| - 1)) + Value(bytes[1..])
    decreases |bytes|
  {
    var n := |bytes|;
    if n > 1 {
      var init, p := bytes[..n - 1], Pow2(8 * (n - 2));
      ValueFirst(init);
      Pow2Byte(n - 2);
      assert init[1..] == bytes[1..][..n - 2];
      assert bytes[0] * (0x100 * p) == bytes[0] * p * 0x100;
    } else {
      assert Value(bytes[..0]) == 0;
    }
  }

  // ----- 32-bit words ------------------------------------------------------------------------

  const WORD: nat := 0x1_0000_0000

  /** The four bytes `setUint32` writes. */
  function Word(value: nat): (bytes: Bytes)
    ensures |bytes| == 4
  {
    Written(value, 4)
  }

  function WordAt(bytes: Bytes, offset: nat): nat
    requires offset + 4 <= |bytes|
  {
    Value(bytes[offset..offset + 4])
  }

  lemma {:induction false} FourBytes()
    ensures Pow2(32) == WORD
  {
    Pow2Byte(0);
    Pow2Byte(1);
    Pow2Byte(2);
    Pow2Byte(3);
  }

  lemma {:induction false} WordRead(bytes: Bytes, offset: nat, value: nat)
    requires offset + 4 <= |bytes| && bytes[offset..offset + 4] == Word(value)
    ensures WordAt(bytes, offset) == value % WORD
  {
    WrittenValue(value, 4);
    FourBytes();
  }

  lemma {:induction false} WordWritten(bytes: Bytes, offset: nat)
    requires offset + 4 <= |bytes|
    ensures WordAt(bytes, offset) < WORD
    ensures Word(WordAt(bytes, offset)) == bytes[offset..offset + 4]
  {
    ValueBound(bytes[offset..offset + 4]);
    ValueWritten(bytes[offset..offset + 4]);
    FourBytes();
  }

  /** Words that start two equal byte strings are words of equal numbers. */
  lemma {:induction false} WordCancels(m: nat, x: Bytes, n: nat, y: Bytes)
    requires m < WORD && n < WORD && Word(m) + x == Word(n) + y
    ensures m == n && x == y
  {
    var all := Word(m) + x;
    assert all[0..4] == Word(m) && all[0..4] == Word(n);
    WordRead(all, 0, m);
    WordRead(all, 0, n);
    assert all[4..] == x && all[4..] == y;
  }
}

/** Minting and verifying proofs of work. The hash is a parameter. */
module ProofsOfWork {
  import opened Prelude
  import opened BigEndian
  import opened ProofOfWorkEncoding

  // ----- leading zero bits -------------------------------------------------------------------

  /** The leading zeros of a byte, as `clz32` less 24 counts them. */
  function Zeros(b: Byte): nat {
    if b >= 0x80 then 0
    else if b >= 0x40 then 1
    else if b >= 0x20 then 2
    else if b >= 0x10 then 3
    else if b >= 8 then 4
    else if b >= 4 then 5
    else if b >= 2 then 6
    else if b >= 1 then 7
    else 8
  }

  function ZeroBits(digest: Bytes): nat {
    if digest == [] then 0
    else if digest[0] == 0 then 8 + ZeroBits(digest[1..])
    else Zeros(digest[0])
  }

  method LeadingZeroBits(digest: Bytes) returns (bits: nat)
    ensures bits == ZeroBits(digest)
  {
    bits := 0;
    var counting := true;
    for i := 0 to |digest|
      invariant bits + (if counting then ZeroBits(digest[i..]) else 0) == ZeroBits(digest)
    {
      var zeros := Zeros(digest[i]);
      assert digest[i..][1..] == digest[i + 1..];
      bits := bits + if counting then zeros else 0;
      counting := counting && digest[i] == 0;
    }
  }

  lemma {:induction false} ZerosBoundByte(b: Byte, k: nat)
    requires k <= 8
    ensures Zeros(b) >= k <==> b < Pow2(8 - k)
  {
    assert Pow2(1) == 2 && Pow2(2) == 4 && Pow2(3) == 8;
    assert Pow2(4) == 16 && Pow2(5) == 32;
    assert Pow2(6) == 64 && Pow2(7) == 128;
    assert Pow2(8) == 256;
  }

  /** With a remainder below `p`, multiples of `p` alone decide. */
  lemma {:induction false} LeadingDecides(b: nat, c: nat, p: nat, r: nat)
    requires r < p
    ensures b * p + r < c * p <==> b < c
  {
    if b < c {
      MultiplesApart(b, c, p);
    } else {
      assert (b - c) * p >= 0;
    }
  }

  /** Up to eight zero bits are told by the first byte. */
  lemma {:induction false} FewZeroBits(b: Byte, k: nat, n: nat, rest: nat)
    requires k <= 8 && rest < Pow2(n)
    ensures Zeros(b) >= k <==> b * Pow2(n) + rest < Pow2(8 + n - k)
  {
    Pow2Adds(8 - k, n);
    ZerosBoundByte(b, k);
    LeadingDecides(b, Pow2(8 - k), Pow2(n), rest);
  }

  /** More than eight need a first byte of zero. */
  lemma {:induction false} ManyZeroBits(b: Byte, k: nat, n: nat, rest: nat)
    requires 8 < k <= 8 + n && b != 0
    ensures b * Pow2(n) + rest >= Pow2(8 + n - k)
  {
    var p := Pow2(n);
    Pow2Grows(8 + n - k, n);
    MultiplesApart(0, b, p);
  }

  /** A digest shows at least `k` zero bits exactly if its number is below two to the bits left. */
  lemma {:induction false} ZeroBitsBoundValue(digest: Bytes, k: nat)
    requires k <= 8 * |digest|
    ensures ZeroBits(digest) >= k <==> Value(digest) < Pow2(8 * |digest| - k)
    decreases |digest|
  {
    if digest == [] {
      assert Pow2(0) == 1;
    } else {
      var b, rest, n := digest[0], digest[1..], 8 * (|digest| - 1);
      ValueFirst(digest);
      ValueBound(rest);
      if k <= 8 {
        FewZeroBits(b, k, n, Value(rest));
      } else if b == 0 {
        ZeroBitsBoundValue(rest, k - 8);
      } else {
        ManyZeroBits(b, k, n, Value(rest));
      }
    }
  }

  // ----- nonces ------------------------------------------------------------------------------

  predicate IsDigit(c: char) {
    '0' <= c <= '9'
  }

  /** At most 16 digits, without a leading zero but for zero itself. */
  predicate IsNonce(nonce: string) {
    && |nonce| <= MAX_NONCE_LENGTH
    && (nonce == "0" || (nonce != "" && '1' <= nonce[0] <= '9' && forall i :: 0 <= i < |nonce| ==> IsDigit(nonce[i])))
  }

  function DigitOf(d: nat): char
    requires d < 10
  {
    '0' + d as char
  }

  function Decimal(n: nat): string {
    if n < 10 then [DigitOf(n)] else Decimal(n / 10) + [DigitOf(n % 10)]
  }

  function Pow10(n: nat): nat {
    if n == 0 then 1 else 10 * Pow10(n - 1)
  }

  lemma {:induction false} DecimalShape(n: nat, digits: nat)
    requires digits > 0 && n < Pow10(digits)
    ensures var s := Decimal(n);
            && 1 <= |s| <= digits
            && (forall i :: 0 <= i < |s| ==> IsDigit(s[i]))
            && (if n == 0 then s == "0" else '1' <= s[0] <= '9')
    decreases digits
  {
    if n >= 10 {
      assert digits > 1 by {
        assert Pow10(1) == 10;
      }
      DecimalShape(n / 10, digits - 1);
    }
  }

  /** The number a row of digits stands for. */
  function Number(s: string): nat
    requires forall i :: 0 <= i < |s| ==> IsDigit(s[i])
  {
    if s == "" then 0 else assert IsDigit(s[|s| - 1]); Number(s[..|s| - 1]) * 10 + (s[|s| - 1] - '0') as int
  }

  lemma {:induction false} NumberShape(s: string)
    requires s != "" && (forall i :: 0 <= i < |s| ==> IsDigit(s[i])) && (s == "0" || s[0] != '0')
    ensures Decimal(Number(s)) == s && Number(s) < Pow10(|s|) && (Number(s) == 0 ==> s == "0")
    decreases |s|
  {
    var init, last := s[..|s| - 1], s[|s| - 1];
    assert s == init + [last];
    if init == "" {
      assert Pow10(1) == 10;
    } else {
      NumberShape(init);
    }
  }

  lemma {:induction false} Pow10Grows(a: nat, b: nat)
    requires a <= b
    ensures Pow10(a) <= Pow10(b)
    decreases b - a
  {
    if a < b {
      Pow10Grows(a, b - 1);
    }
  }

  /** The nonces accepted are exactly the decimals of the numbers of at most 16 digits. */
  lemma {:induction false} NoncesAreDecimals(nonce: string)
    ensures IsNonce(nonce) <==> exists n: nat :: n < Pow10(MAX_NONCE_LENGTH) && nonce == Decimal(n)
  {
    if IsNonce(nonce) {
      NumberShape(nonce);
      Pow10Grows(|nonce|, MAX_NONCE_LENGTH);
    }
    if exists n: nat :: n < Pow10(MAX_NONCE_LENGTH) && nonce == Decimal(n) {
      var n: nat :| n < Pow10(MAX_NONCE_LENGTH) && nonce == Decimal(n);
      DecimalShape(n, MAX_NONCE_LENGTH);
    }
  }

  // ----- the search --------------------------------------------------------------------------

  type Hash = Bytes -> Bytes

  predicate IsDifficulty(bits: int) {
    MIN_DIFFICULTY_BITS <= bits <= MAX_DIFFICULTY_BITS
  }

  const MINT_MARGIN_BITS: nat := 7

  function Attempts(bits: int): nat
    requires IsDifficulty(bits)
  {
    Pow2(bits + MINT_MARGIN_BITS)
  }

  function WorkBits(hash: Hash, challenge: Bytes, nonce: string): nat {
    ZeroBits(hash(challenge + LengthPrefixed(nonce)))
  }

  /** The caller's test: what it says of a nonce may depend on all it was asked before. */
  type Test = (seq<string>, string) -> bool

  /** The nonces a test is asked before a counter: those with enough work, in turn. */
  function Asked(hash: Hash, challenge: Bytes, bits: int, counter: nat): seq<string> {
    if counter == 0 then []
    else
      var nonce := Decimal(counter - 1);
      Asked(hash, challenge, bits, counter - 1) + if WorkBits(hash, challenge, nonce) >= bits then [nonce] else []
  }

  predicate Qualifies(hash: Hash, challenge: Bytes, bits: int, accepts: Test, counter: nat) {
    && WorkBits(hash, challenge, Decimal(counter)) >= bits
    && accepts(Asked(hash, challenge, bits, counter), Decimal(counter))
  }

  ghost predicate NoneBefore(hash: Hash, challenge: Bytes, bits: int, accepts: Test, counter: nat) {
    forall c: nat :: c < counter ==> !Qualifies(hash, challenge, bits, accepts, c)
  }

  /** The least counter that qualifies. */
  ghost predicate IsLeast(hash: Hash, challenge: Bytes, bits: int, accepts: Test, counter: nat) {
    && Qualifies(hash, challenge, bits, accepts, counter)
    && NoneBefore(hash, challenge, bits, accepts, counter)
  }

  /** What a search for a nonce returns; none stands for its rejection. */
  ghost predicate Finds(hash: Hash, challenge: Bytes, bits: int, accepts: Test, found: Option<string>) {
    if !(1 <= bits <= 32) then found == None
    else match found
      case Some(nonce) =>
        exists c: nat :: c < Pow2(bits + 7) && IsLeast(hash, challenge, bits, accepts, c) && nonce == Decimal(c)
      case None => NoneBefore(hash, challenge, bits, accepts, Pow2(bits + 7))
  }

  lemma {:induction false} LeastIsFound(hash: Hash, challenge: Bytes, bits: int, accepts: Test, counter: nat)
    requires IsDifficulty(bits) && counter < Attempts(bits) && Qualifies(hash, challenge, bits, accepts, counter)
    requires NoneBefore(hash, challenge, bits, accepts, counter)
    ensures Finds(hash, challenge, bits, accepts, Some(Decimal(counter)))
  {
    assert IsLeast(hash, challenge, bits, accepts, counter);
  }

  /** The test that accepts every nonce. */
  const EVERY: Test := (asked: seq<string>, nonce: string) => true

  lemma {:induction false} EveryQualifies(hash: Hash, challenge: Bytes, bits: int, counter: nat)
    ensures Qualifies(hash, challenge, bits, EVERY, counter) <==> WorkBits(hash, challenge, Decimal(counter)) >= bits
  {
  }

  lemma {:induction false} AskedOn(hash: Hash, challenge: Bytes, bits: int, counter: nat)
    ensures Asked(hash, challenge, bits, counter + 1)
            == Asked(hash, challenge, bits, counter)
               + if WorkBits(hash, challenge, Decimal(counter)) >= bits then [Decimal(counter)] else []
  {
  }

  lemma {:induction false} NoneOn(hash: Hash, challenge: Bytes, bits: int, accepts: Test, counter: nat)
    requires NoneBefore(hash, challenge, bits, accepts, counter)
    requires !Qualifies(hash, challenge, bits, accepts, counter)
    ensures NoneBefore(hash, challenge, bits, accepts, counter + 1)
  {
  }

  lemma {:induction false} NoneIsFound(hash: Hash, challenge: Bytes, bits: int, accepts: Test)
    requires IsDifficulty(bits)
    requires NoneBefore(hash, challenge, bits, accepts, Attempts(bits))
    ensures Finds(hash, challenge, bits, accepts, None)
  {
  }

  function Verified(hash: Hash, challenge: Bytes, nonce: string, bits: int): Option<bool> {
    if !IsDifficulty(bits) then None else Some(IsNonce(nonce) && WorkBits(hash, challenge, nonce) >= bits)
  }

  lemma {:induction false} AttemptsAreShort(bits: int)
    requires IsDifficulty(bits)
    ensures Attempts(bits) <= Pow10(12) <= Pow10(MAX_NONCE_LENGTH)
  {
    Pow2Grows(bits + MINT_MARGIN_BITS, 39);
    Pow2Of39();
    Pow10Grows(12, MAX_NONCE_LENGTH);
  }

  lemma {:induction false} Pow2Of39()
    ensures Pow2(39) == 549755813888
  {
    assert Pow2(8) == 256;
    assert Pow2(16) == 65536;
    assert Pow2(24) == 16777216;
    assert Pow2(32) == 4294967296;
  }

  /** Any two searches for the same agree on what they find. */
  lemma {:induction false} SearchesAgree(hash: Hash, challenge: Bytes, bits: int, accepts: Test, accepts': Test,
                                         found: Option<string>, found': Option<string>)
    requires Finds(hash, challenge, bits, accepts, found) && Finds(hash, challenge, bits, accepts', found')
    requires forall asked, nonce :: accepts(asked, nonce) <==> accepts'(asked, nonce)
    ensures found == found'
  {
    if IsDifficulty(bits) {
      assert forall c: nat ::
          Qualifies(hash, challenge, bits, accepts, c) <==> Qualifies(hash, challenge, bits, accepts', c);
    }
  }

  lemma {:induction false} CountersAreNonces(bits: int, counter: nat)
    requires 1 <= bits <= 32 && counter < Pow2(bits + 7)
    ensures IsNonce(Decimal(counter)) && |Decimal(counter)| <= 12
  {
    AttemptsAreShort(bits);
    DecimalShape(counter, 12);
    NoncesAreDecimals(Decimal(counter));
  }

  /** Every nonce found is a canonical one that verifies, of at most 12 digits. */
  lemma {:induction false} FoundVerifies(hash: Hash, challenge: Bytes, bits: int, accepts: Test, nonce: string)
    requires Finds(hash, challenge, bits, accepts, Some(nonce))
    ensures Verified(hash, challenge, nonce, bits) == Some(true)
    ensures |nonce| <= 12
    ensures exists c: nat :: nonce == Decimal(c) && accepts(Asked(hash, challenge, bits, c), nonce)
  {
    var c: nat :| c < Pow2(bits + 7) && IsLeast(hash, challenge, bits, accepts, c) && nonce == Decimal(c);
    CountersAreNonces(bits, c);
  }

  /** A nonce verifies exactly if it is canonical and the number of the hash is small enough. */
  lemma {:induction false} VerifiesExactly(hash: Hash, challenge: Bytes, nonce: string, bits: int)
    requires |hash(challenge + LengthPrefixed(nonce))| == 32
    ensures Verified(hash, challenge, nonce, bits).Some? <==> 1 <= bits <= 32
    ensures 1 <= bits <= 32 ==>
              (Verified(hash, challenge, nonce, bits) == Some(true)
               <==> IsNonce(nonce) && Value(hash(challenge + LengthPrefixed(nonce))) < Pow2(256 - bits))
  {
    if 1 <= bits <= 32 {
      ZeroBitsBoundValue(hash(challenge + LengthPrefixed(nonce)), bits);
    }
  }

  class ProofOfWork {
    const hash: Hash
    const challenge: Bytes

    constructor (hash: Hash, challenge: Bytes)
      ensures this.hash == hash && this.challenge == challenge
    {
      this.hash, this.challenge := hash, challenge;
    }

    method Work(nonce: string) returns (bits: nat)
      ensures bits == WorkBits(hash, challenge, nonce)
    {
      bits := LeadingZeroBits(hash(challenge + LengthPrefixed(nonce)));
    }

    /** Every 4096 counters the search yields to other work, which changes nothing here. */
    method Mint(difficultyBits: int) returns (found: Option<string>)
      ensures Finds(hash, challenge, difficultyBits, EVERY, found)
    {
      if !IsDifficulty(difficultyBits) {
        return None;
      }
      var attempts := Attempts(difficultyBits);
      for counter := 0 to attempts
        invariant NoneBefore(hash, challenge, difficultyBits, EVERY, counter)
      {
        var nonce := Decimal(counter);
        var bits := Work(nonce);
        EveryQualifies(hash, challenge, difficultyBits, counter);
        if bits >= difficultyBits {
          LeastIsFound(hash, challenge, difficultyBits, EVERY, counter);
          return Some(nonce);
        }
        NoneOn(hash, challenge, difficultyBits, EVERY, counter);
      }
      NoneIsFound(hash, challenge, difficultyBits, EVERY);
      return None;
    }

    method MintSync(difficultyBits: int, accepts: Test) returns (found: Option<string>)
      ensures Finds(hash, challenge, difficultyBits, accepts, found)
    {
      if !IsDifficulty(difficultyBits) {
        return None;
      }
      var attempts := Attempts(difficultyBits);
      var asked: seq<string> := [];
      for counter: nat := 0 to attempts
        invariant asked == Asked(hash, challenge, difficultyBits, counter)
        invariant NoneBefore(hash, challenge, difficultyBits, accepts, counter)
      {
        var nonce := Decimal(counter);
        var bits := Work(nonce);
        var accepted := bits >= difficultyBits && accepts(asked, nonce);
        assert accepted == Qualifies(hash, challenge, difficultyBits, accepts, counter);
        if accepted {
          LeastIsFound(hash, challenge, difficultyBits, accepts, counter);
          return Some(nonce);
        }
        NoneOn(hash, challenge, difficultyBits, accepts, counter);
        AskedOn(hash, challenge, difficultyBits, counter);
        asked := asked + if bits >= difficultyBits then [nonce] else [];
      }
      NoneIsFound(hash, challenge, difficultyBits, accepts);
      return None;
    }

    method Verify(nonce: string, difficultyBits: int) returns (valid: Option<bool>)
      ensures valid == Verified(hash, challenge, nonce, difficultyBits)
    {
      if !IsDifficulty(difficultyBits) {
        return None;
      }
      if !IsNonce(nonce) {
        return Some(false);
      }
      var bits := Work(nonce);
      return Some(bits >= difficultyBits);
    }
  }
}

/**
 * Strict base64url without padding, section 5 of RFC 4648. The platform's own decoder is lenient:
 * it skips what is no digit and drops spare bits. Encoding again makes the decoder here strict.
 */
module CanonicalBase64Url {
  import opened Prelude

  type Sextet = s: int | 0 <= s < 64 witness 0

  // ----- the platform's encoder and decoder --------------------------------------------------

  function Digit(s: Sextet): char {
    if s < 26 then 'A' + s as char
    else if s < 52 then 'a' + (s - 26) as char
    else if s < 62 then '0' + (s - 52) as char
    else if s == 62 then '+'
    else '/'
  }

  function DigitValue(c: char): Option<Sextet> {
    if 'A' <= c <= 'Z' then Some((c - 'A') as int)
    else if 'a' <= c <= 'z' then Some((c - 'a') as int + 26)
    else if '0' <= c <= '9' then Some((c - '0') as int + 52)
    else if c == '+' || c == '-' then Some(62)
    else if c == '/' || c == '_' then Some(63)
    else None
  }

  // Three bytes fill four digits.
  function First(a: Byte): Sextet { a / 4 }
  function Second(a: Byte, b: Byte): Sextet { a % 4 * 16 + b / 16 }
  function Third(b: Byte, c: Byte): Sextet { b % 16 * 4 + c / 64 }
  function Fourth(c: Byte): Sextet { c % 64 }

  // One or two bytes leave spare bits in their last digit.
  function LastOfOne(a: Byte): Sextet { a % 4 * 16 }
  function LastOfTwo(b: Byte): Sextet { b % 16 * 4 }

  function Upper(p: Sextet, q: Sextet): Byte { p * 4 + q / 16 }
  function Middle(q: Sextet, r: Sextet): Byte { q % 16 * 16 + r / 4 }
  function Lower(r: Sextet, s: Sextet): Byte { r % 4 * 64 + s }

  function Sextets(bytes: Bytes): (s: seq<Sextet>)
    ensures |s| == (|bytes| * 4 + 2) / 3
  {
    if |bytes| == 0 then []
    else if |bytes| == 1 then [First(bytes[0]), LastOfOne(bytes[0])]
    else if |bytes| == 2 then [First(bytes[0]), Second(bytes[0], bytes[1]), LastOfTwo(bytes[1])]
    else
      [First(bytes[0]), Second(bytes[0], bytes[1]), Third(bytes[1], bytes[2]), Fourth(bytes[2])] + Sextets(bytes[3..])
  }

  function Octets(s: seq<Sextet>): (bytes: Bytes)
    ensures |bytes| == |s| * 3 / 4
  {
    if |s| < 2 then []
    else if |s| == 2 then [Upper(s[0], s[1])]
    else if |s| == 3 then [Upper(s[0], s[1]), Middle(s[1], s[2])]
    else [Upper(s[0], s[1]), Middle(s[1], s[2]), Lower(s[2], s[3])] + Octets(s[4..])
  }

  lemma {:induction false} GroupsInvert(a: Byte, b: Byte, c: Byte)
    ensures Upper(First(a), Second(a, b)) == a && Upper(First(a), LastOfOne(a)) == a
    ensures Middle(Second(a, b), Third(b, c)) == b && Middle(Second(a, b), LastOfTwo(b)) == b
    ensures Lower(Third(b, c), Fourth(c)) == c
  {
  }

  lemma {:induction false} GroupsInvertBack(p: Sextet, q: Sextet, r: Sextet, s: Sextet)
    ensures First(Upper(p, q)) == p
    ensures Second(Upper(p, q), Middle(q, r)) == q
    ensures Third(Middle(q, r), Lower(r, s)) == r
    ensures Fourth(Lower(r, s)) == s
    ensures q % 16 == 0 ==> LastOfOne(Upper(p, q)) == q
    ensures r % 4 == 0 ==> LastOfTwo(Middle(q, r)) == r
  {
  }

  lemma {:induction false} SextetsOfGroup(bytes: Bytes)
    requires |bytes| > 2
    ensures var s := Sextets(bytes);
            && |s| >= 4 && s[0] == First(bytes[0]) && s[1] == Second(bytes[0], bytes[1])
            && s[2] == Third(bytes[1], bytes[2]) && s[3] == Fourth(bytes[2])
            && s[4..] == Sextets(bytes[3..])
  {
  }

  lemma {:induction false} OctetsOfGroup(s: seq<Sextet>)
    requires |s| > 3
    ensures var bytes := Octets(s);
            && |bytes| >= 3 && bytes[0] == Upper(s[0], s[1]) && bytes[1] == Middle(s[1], s[2])
            && bytes[2] == Lower(s[2], s[3]) && bytes[3..] == Octets(s[4..])
  {
  }

  function Digits(s: seq<Sextet>): (text: string)
    ensures |text| == |s| && forall i :: 0 <= i < |s| ==> text[i] == Digit(s[i])
  {
    seq(|s|, i requires 0 <= i < |s| => Digit(s[i]))
  }

  function Padding(length: nat): string {
    if length % 3 == 0 then "" else if length % 3 == 1 then "==" else "="
  }

  function ToBase64(bytes: Bytes): string {
    Digits(Sextets(bytes)) + Padding(|bytes|)
  }

  /** The values of the characters that are digits. */
  function Sieve(text: string): seq<Sextet> {
    if text == "" then []
    else (match DigitValue(text[0]) case Some(v) => [v] case None => []) + Sieve(text[1..])
  }

  function FromBase64(text: string): Bytes {
    Octets(Sieve(text))
  }

  // ----- the strict encoder and decoder ------------------------------------------------------

  function Replaced(text: string, from: char, to: char): (replaced: string)
    ensures |replaced| == |text|
  {
    seq(|text|, i requires 0 <= i < |text| => if text[i] == from then to else text[i])
  }

  function WithoutTrailing(text: string, c: char): string {
    if text != "" && text[|text| - 1] == c then WithoutTrailing(text[..|text| - 1], c) else text
  }

  function Encode(bytes: Bytes): string {
    WithoutTrailing(Replaced(Replaced(ToBase64(bytes), '+', '-'), '/', '_'), '=')
  }

  function Lenient(text: string): Bytes {
    FromBase64(Replaced(Replaced(text, '-', '+'), '_', '/'))
  }

  function Decode(text: string, length: nat): Option<Bytes> {
    if |text| != CeilingDivide(length * 4, 3) then None
    else if |Lenient(text)| != length || Encode(Lenient(text)) != text then None
    else Some(Lenient(text))
  }

  function DecodeBounded(text: string, maxLength: nat): Option<Bytes> {
    if |text| > CeilingDivide(maxLength * 4, 3) then None
    else if Encode(Lenient(text)) != text then None
    else Some(Lenient(text))
  }

  function CeilingDivide(a: nat, b: nat): nat
    requires b > 0
  {
    (a + b - 1) / b
  }

  // ----- the digits carry the bits -----------------------------------------------------------

  /** The number a digit string stands for, most significant digit first, after a prefix worth `acc`. */
  function Horner(base: nat, acc: nat, digits: seq<nat>): nat
    decreases |digits|
  {
    if digits == [] then acc else Horner(base, acc * base + digits[0], digits[1..])
  }

  lemma {:induction false} HornerTwo(base: nat, acc: nat, digits: seq<nat>)
    requires |digits| >= 2
    ensures Horner(base, acc, digits) == Horner(base, (acc * base + digits[0]) * base + digits[1], digits[2..])
  {
  }

  lemma {:induction false} HornerThree(base: nat, acc: nat, digits: seq<nat>)
    requires |digits| >= 3
    ensures Horner(base, acc, digits)
            == Horner(base, ((acc * base + digits[0]) * base + digits[1]) * base + digits[2], digits[3..])
  {
    HornerTwo(base, acc, digits);
    var next := (acc * base + digits[0]) * base + digits[1];
    assert Horner(base, next, digits[2..]) == Horner(base, next * base + digits[2], digits[2..][1..]);
    assert digits[2..][1..] == digits[3..];
  }

  lemma {:induction false} HornerFour(base: nat, acc: nat, digits: seq<nat>)
    requires |digits| >= 4
    ensures Horner(base, acc, digits)
            == Horner(base, (((acc * base + digits[0]) * base + digits[1]) * base + digits[2]) * base + digits[3],
                      digits[4..])
  {
    HornerThree(base, acc, digits);
    var next := ((acc * base + digits[0]) * base + digits[1]) * base + digits[2];
    assert Horner(base, next, digits[3..]) == Horner(base, next * base + digits[3], digits[3..][1..]);
    assert digits[3..][1..] == digits[4..];
  }

  /** The digits spell the same bits as the bytes, then up to four zero bits. */
  lemma {:induction false} SextetsSpellTheBits(acc: nat, bytes: Bytes)
    ensures Horner(64, acc, Sextets(bytes)) == Spared(|bytes|, Horner(256, acc, bytes))
    decreases |bytes|
  {
    if |bytes| == 1 {
      OneSpellsTheBits(acc, bytes[0]);
      assert bytes == [bytes[0]];
    } else if |bytes| == 2 {
      TwoSpellTheBits(acc, bytes[0], bytes[1]);
      assert bytes == [bytes[0], bytes[1]];
    } else if |bytes| > 2 {
      SextetsSpellTheBits(((acc * 256 + bytes[0]) * 256 + bytes[1]) * 256 + bytes[2], bytes[3..]);
      ManySpellTheBits(acc, bytes, Sextets(bytes));
    }
  }

  lemma {:induction false} ManySpellTheBits(acc: nat, bytes: Bytes, s: seq<Sextet>)
    requires |bytes| > 2 && s == Sextets(bytes)
    requires var next := ((acc * 256 + bytes[0]) * 256 + bytes[1]) * 256 + bytes[2];
             Horner(64, next, Sextets(bytes[3..])) == Spared(|bytes| - 3, Horner(256, next, bytes[3..]))
    ensures Horner(64, acc, s) == Spared(|bytes|, Horner(256, acc, bytes))
  {
    var next := ((acc * 256 + bytes[0]) * 256 + bytes[1]) * 256 + bytes[2];
    SextetsOfGroup(bytes);
    GroupSpellsTheBits(acc, bytes[0], bytes[1], bytes[2]);
    FourDigitsIn(acc, next, s);
    HornerThree(256, acc, bytes);
    SparedGroup(|bytes|, Horner(256, acc, bytes));
  }

  lemma {:induction false} FourDigitsIn(acc: nat, next: nat, s: seq<Sextet>)
    requires |s| > 3 && next == (((acc * 64 + s[0]) * 64 + s[1]) * 64 + s[2]) * 64 + s[3]
    ensures Horner(64, acc, s) == Horner(64, next, s[4..])
  {
    HornerFour(64, acc, s);
  }

  lemma {:induction false} SparedGroup(length: nat, bits: nat)
    requires length > 2
    ensures Spared(length, bits) == Spared(length - 3, bits)
  {
  }

  lemma {:induction false} OneSpellsTheBits(acc: nat, a: Byte)
    ensures Horner(64, acc, Sextets([a])) == Horner(256, acc, [a]) * 16
  {
    SextetsOfOne(a);
    HornerTwo(64, acc, [First(a), LastOfOne(a)]);
  }

  lemma {:induction false} TwoSpellTheBits(acc: nat, a: Byte, b: Byte)
    ensures Horner(64, acc, Sextets([a, b])) == Horner(256, acc, [a, b]) * 4
  {
    SextetsOfTwo(a, b);
    HornerThree(64, acc, [First(a), Second(a, b), LastOfTwo(b)]);
    HornerTwo(256, acc, [a, b]);
  }

  /** The bits of some bytes, with the zero bits that fill up their last digit. */
  function Spared(length: nat, bits: nat): nat {
    if length % 3 == 0 then bits else if length % 3 == 1 then bits * 16 else bits * 4
  }

  lemma {:induction false} GroupSpellsTheBits(acc: nat, a: Byte, b: Byte, c: Byte)
    ensures (((acc * 64 + First(a)) * 64 + Second(a, b)) * 64 + Third(b, c)) * 64 + Fourth(c)
            == ((acc * 256 + a) * 256 + b) * 256 + c
  {
  }

  // ----- what the lenient decoder makes of encoded text --------------------------------------

  function UrlDigit(s: Sextet): char {
    if s == 62 then '-' else if s == 63 then '_' else Digit(s)
  }

  predicate IsUrlDigit(c: char) {
    'A' <= c <= 'Z' || 'a' <= c <= 'z' || '0' <= c <= '9' || c == '-' || c == '_'
  }

  function UrlValue(c: char): Sextet
    requires IsUrlDigit(c)
  {
    DigitValue(c).value
  }

  lemma {:induction false} DigitsHaveValues(s: Sextet)
    ensures DigitValue(Digit(s)) == Some(s) && IsUrlDigit(UrlDigit(s)) && UrlValue(UrlDigit(s)) == s
    ensures Digit(s) != '=' && UrlDigit(s) != '='
  {
  }

  /** An encoding is the plain row of digits, in the URL's alphabet. */
  lemma {:induction false} EncodeIsDigits(bytes: Bytes)
    ensures var s := Sextets(bytes);
            && |Encode(bytes)| == |s|
            && forall i :: 0 <= i < |s| ==> Encode(bytes)[i] == UrlDigit(s[i])
  {
    var s := Sextets(bytes);
    var text := Replaced(Replaced(ToBase64(bytes), '+', '-'), '/', '_');
    var digits := text[..|s|];
    assert text == digits + Padding(|bytes|);
    forall i | 0 <= i < |s|
      ensures digits[i] == UrlDigit(s[i]) && digits[i] != '='
    {
      DigitsHaveValues(s[i]);
    }
    PaddingGoes(digits, |bytes|);
  }

  lemma {:induction false} PaddingGoes(digits: string, length: nat)
    requires digits == "" || digits[|digits| - 1] != '='
    ensures WithoutTrailing(digits + Padding(length), '=') == digits
  {
    var padded := digits + Padding(length);
    assert (digits + "=")[..|digits|] == digits;
    assert WithoutTrailing(digits, '=') == digits;
    assert WithoutTrailing(digits + "=", '=') == digits;
    if length % 3 == 1 {
      assert padded[..|padded| - 1] == digits + "=";
    } else if length % 3 == 0 {
      assert padded == digits;
    }
  }

  lemma {:induction false} SextetsOfOne(a: Byte)
    ensures Sextets([a]) == [First(a), LastOfOne(a)]
  {
  }

  lemma {:induction false} SextetsOfTwo(a: Byte, b: Byte)
    ensures Sextets([a, b]) == [First(a), Second(a, b), LastOfTwo(b)]
  {
  }

  lemma {:induction false} OctetsOfOne(a: Byte)
    ensures Octets(Sextets([a])) == [a]
  {
  }

  lemma {:induction false} OctetsOfTwo(a: Byte, b: Byte)
    ensures Octets(Sextets([a, b])) == [a, b]
  {
  }

  lemma {:induction false} OctetsOfSextets(bytes: Bytes)
    ensures Octets(Sextets(bytes)) == bytes
    decreases |bytes|
  {
    if |bytes| == 1 {
      OctetsOfOne(bytes[0]);
      assert bytes == [bytes[0]];
    } else if |bytes| == 2 {
      OctetsOfTwo(bytes[0], bytes[1]);
      assert bytes == [bytes[0], bytes[1]];
    } else if |bytes| > 2 {
      OctetsOfSextets(bytes[3..]);
      OctetsOfManySextets(bytes, Sextets(bytes));
    }
  }

  lemma {:induction false} OctetsOfManySextets(bytes: Bytes, s: seq<Sextet>)
    requires |bytes| > 2 && s == Sextets(bytes) && Octets(Sextets(bytes[3..])) == bytes[3..]
    ensures Octets(s) == bytes
  {
    GroupsInvert(bytes[0], bytes[1], bytes[2]);
    SextetsOfGroup(bytes);
    OctetsOfGroup(s);
  }

  lemma {:induction false} SieveOfDigits(text: string, s: seq<Sextet>)
    requires |text| == |s| && forall i :: 0 <= i < |s| ==> DigitValue(text[i]) == Some(s[i])
    ensures Sieve(text) == s
    decreases |s|
  {
    if s != [] {
      SieveOfDigits(text[1..], s[1..]);
      assert s == [s[0]] + s[1..];
    }
  }

  lemma {:induction false} LenientInverts(bytes: Bytes)
    ensures Lenient(Encode(bytes)) == bytes
  {
    var s := Sextets(bytes);
    var text := Encode(bytes);
    var standard := Replaced(Replaced(text, '-', '+'), '_', '/');
    EncodeIsDigits(bytes);
    forall i | 0 <= i < |s|
      ensures DigitValue(standard[i]) == Some(s[i])
    {
      DigitsHaveValues(s[i]);
    }
    SieveOfDigits(standard, s);
    OctetsOfSextets(bytes);
  }

  // ----- strictness --------------------------------------------------------------------------

  lemma {:induction false} EncodedLength(bytes: Bytes)
    ensures |Encode(bytes)| == CeilingDivide(|bytes| * 4, 3)
  {
    EncodeIsDigits(bytes);
  }

  /** A decoder accepts what the encoder writes for bytes of that length, and nothing else. */
  lemma {:induction false} DecodesExactlyEncodings(text: string, length: nat, bytes: Bytes)
    ensures Decode(text, length) == Some(bytes) <==> |bytes| == length && Encode(bytes) == text
  {
    LenientInverts(bytes);
    EncodedLength(bytes);
  }

  lemma {:induction false} DecodesExactlyBoundedEncodings(text: string, maxLength: nat, bytes: Bytes)
    ensures DecodeBounded(text, maxLength) == Some(bytes) <==> |bytes| <= maxLength && Encode(bytes) == text
  {
    LenientInverts(bytes);
    EncodedLength(bytes);
    assert CeilingDivide(|bytes| * 4, 3) <= CeilingDivide(maxLength * 4, 3) <==> |bytes| <= maxLength;
  }

  /** The number of bytes is told by the number of digits. */
  lemma {:induction false} LengthRecovered(length: nat)
    ensures CeilingDivide(length * 4, 3) * 3 / 4 == length
  {
  }

  /**
   * Which texts are encodings: rows of the alphabet's digits, of a length some number of bytes
   * has, whose last digit leaves the spare bits zero.
   */
  predicate IsCanonical(text: string) {
    && (forall i :: 0 <= i < |text| ==> IsUrlDigit(text[i]))
    && SpareBitsZero(UrlSextets(text))
  }

  function UrlSextets(text: string): (s: seq<Sextet>)
    requires forall i :: 0 <= i < |text| ==> IsUrlDigit(text[i])
    ensures |s| == |text| && forall i :: 0 <= i < |s| ==> s[i] == UrlValue(text[i])
  {
    seq(|text|, i requires 0 <= i < |text| => UrlValue(text[i]))
  }

  lemma {:induction false} EncodingsAreCanonical(bytes: Bytes)
    ensures IsCanonical(Encode(bytes))
  {
    var s := Sextets(bytes);
    EncodeIsDigits(bytes);
    forall i | 0 <= i < |s|
      ensures IsUrlDigit(Encode(bytes)[i]) && UrlValue(Encode(bytes)[i]) == s[i]
    {
      DigitsHaveValues(s[i]);
    }
    assert UrlSextets(Encode(bytes)) == s;
    LastSextet(bytes);
  }

  /** An encoding's digits, read as one number, spell the bytes' bits and then only zeros. */
  lemma {:induction false} EncodingSpellsTheBits(bytes: Bytes)
    ensures IsCanonical(Encode(bytes))
    ensures Horner(64, 0, UrlSextets(Encode(bytes))) == Spared(|bytes|, Horner(256, 0, bytes))
  {
    var s := Sextets(bytes);
    EncodingsAreCanonical(bytes);
    EncodeIsDigits(bytes);
    forall i | 0 <= i < |s|
      ensures UrlSextets(Encode(bytes))[i] == s[i]
    {
      DigitsHaveValues(s[i]);
    }
    assert UrlSextets(Encode(bytes)) == s;
    SextetsSpellTheBits(0, bytes);
  }

  lemma {:induction false} CanonicalIsEncoding(text: string) returns (bytes: Bytes)
    requires IsCanonical(text)
    ensures Encode(bytes) == text
  {
    var s := UrlSextets(text);
    bytes := Octets(s);
    SextetsOfOctets(s);
    EncodeIsDigits(bytes);
    forall i | 0 <= i < |text|
      ensures UrlDigit(s[i]) == text[i]
    {
    }
  }

  lemma {:induction false} LastSextet(bytes: Bytes)
    ensures SpareBitsZero(Sextets(bytes))
    decreases |bytes|
  {
    if |bytes| == 1 {
      SextetsOfOne(bytes[0]);
      assert bytes == [bytes[0]];
    } else if |bytes| == 2 {
      SextetsOfTwo(bytes[0], bytes[1]);
      assert bytes == [bytes[0], bytes[1]];
    } else if |bytes| > 2 {
      LastSextet(bytes[3..]);
      SpareBitsOfGroup(bytes, Sextets(bytes));
    }
  }

  lemma {:induction false} SpareBitsOfGroup(bytes: Bytes, s: seq<Sextet>)
    requires |bytes| > 2 && s == Sextets(bytes) && SpareBitsZero(Sextets(bytes[3..]))
    ensures SpareBitsZero(s)
  {
    SextetsOfGroup(bytes);
    assert |s[4..]| % 4 == |s| % 4;
  }

  predicate SpareBitsZero(s: seq<Sextet>) {
    && |s| % 4 != 1
    && (|s| % 4 == 2 ==> s[|s| - 1] % 16 == 0)
    && (|s| % 4 == 3 ==> s[|s| - 1] % 4 == 0)
  }

  lemma {:induction false} SextetsOfOctets(s: seq<Sextet>)
    requires SpareBitsZero(s)
    ensures Sextets(Octets(s)) == s
    decreases |s|
  {
    if |s| == 2 {
      SextetsOfTwoDigits(s[0], s[1]);
      assert s == [s[0], s[1]];
    } else if |s| == 3 {
      SextetsOfThreeDigits(s[0], s[1], s[2]);
      assert s == [s[0], s[1], s[2]];
    } else if |s| > 3 {
      SextetsOfOctets(s[4..]);
      OctetsOfGroup(s);
      GroupsInvertBack(s[0], s[1], s[2], s[3]);
      SextetsOfManyDigits(s, Octets(s));
    }
  }

  lemma {:induction false} SextetsOfTwoDigits(p: Sextet, q: Sextet)
    requires q % 16 == 0
    ensures Sextets(Octets([p, q])) == [p, q]
  {
  }

  lemma {:induction false} SextetsOfThreeDigits(p: Sextet, q: Sextet, r: Sextet)
    requires r % 4 == 0
    ensures Sextets(Octets([p, q, r])) == [p, q, r]
  {
    SextetsOfTwo(Upper(p, q), Middle(q, r));
    GroupsInvertBack(p, q, r, 0);
  }

  lemma {:induction false} SextetsOfManyDigits(s: seq<Sextet>, bytes: Bytes)
    requires |s| > 3 && |bytes| >= 3
    requires s[0] == First(bytes[0]) && s[1] == Second(bytes[0], bytes[1])
    requires s[2] == Third(bytes[1], bytes[2]) && s[3] == Fourth(bytes[2])
    requires s[4..] == Sextets(bytes[3..])
    ensures Sextets(bytes) == s
  {
    SextetsOfGroup(bytes);
  }

  lemma {:induction false} DecodesExactlyCanonical(text: string, length: nat)
    ensures Decode(text, length).Some? <==> IsCanonical(text) && |text| == CeilingDivide(length * 4, 3)
  {
    if Decode(text, length).Some? {
      EncodingsAreCanonical(Lenient(text));
    }
    if IsCanonical(text) && |text| == CeilingDivide(length * 4, 3) {
      var bytes := CanonicalIsEncoding(text);
      EncodedLength(bytes);
      LengthRecovered(|bytes|);
      LengthRecovered(length);
      DecodesExactlyEncodings(text, length, bytes);
    }
  }
}

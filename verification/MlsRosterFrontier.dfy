/** The roster frontier as text: a prefix, then digests in order, one a line. */
module MlsRosterFrontier {
  import opened Prelude
  import opened Sorting
  import Base64 = CanonicalBase64Url

  const PREFIX := "pigeon:community-frontier:v1\n"
  const MAX_HEADS: nat := 256
  const MAX_BYTES: nat := |PREFIX| + MAX_HEADS * 44 - 1

  predicate EndsDigest(c: char) {
    c in "AEIMQUYcgkosw048"
  }

  predicate IsDigest(text: string) {
    && |text| == 43
    && (forall i :: 0 <= i < 42 ==> Base64.IsUrlDigit(text[i]))
    && EndsDigest(text[42])
  }

  predicate Validates(frontier: seq<string>) {
    && |frontier| <= MAX_HEADS
    && forall i :: 0 <= i < |frontier| ==> IsDigest(frontier[i]) && (i == 0 || Less(frontier[i - 1], frontier[i]))
  }

  function Join(lines: seq<string>): string {
    if lines == [] then ""
    else if |lines| == 1 then lines[0]
    else lines[0] + "\n" + Join(lines[1..])
  }

  function Split(text: string): (lines: seq<string>)
    ensures lines != []
  {
    if text == "" then [""]
    else
      var rest := Split(text[1..]);
      if text[0] == '\n' then [""] + rest else [[text[0]] + rest[0]] + rest[1..]
  }

  /** The bytes of a text of ASCII characters, in UTF-8 as in Latin-1. */
  function Ascii(text: string): (bytes: Bytes)
    requires IsAscii(text)
    ensures |bytes| == |text| && forall i :: 0 <= i < |text| ==> bytes[i] == text[i] as int
  {
    seq(|text|, i requires 0 <= i < |text| => text[i] as int)
  }

  predicate IsAscii(text: string) {
    forall i :: 0 <= i < |text| ==> text[i] as int < 0x80
  }

  function Latin1(bytes: Bytes): (text: string)
    ensures |text| == |bytes| && forall i :: 0 <= i < |bytes| ==> text[i] as int == bytes[i]
  {
    seq(|bytes|, i requires 0 <= i < |bytes| => bytes[i] as char)
  }

  /** None stands for the rejection of too many, malformed or repeated digests. */
  function Encode(frontier: seq<string>): Option<Bytes> {
    var sorted := Sort(frontier);
    if !Validates(sorted) then None
    else
      ValidatedIsAscii(sorted);
      Some(Ascii(PREFIX + Join(sorted)))
  }

  function Decode(bytes: Bytes): Option<seq<string>> {
    if |bytes| > MAX_BYTES then None
    else
      var text := Latin1(bytes);
      if !(PREFIX <= text) then None
      else
        var frontier := Lines(text[|PREFIX|..]);
        if Validates(frontier) then Some(frontier) else None
  }

  function Lines(body: string): seq<string> {
    if body == "" then [] else Split(body)
  }

  // ----- digests -----------------------------------------------------------------------------

  lemma {:induction false} EndsAreFours(c: char)
    ensures EndsDigest(c) <==> Base64.IsUrlDigit(c) && Base64.UrlValue(c) % 4 == 0
  {
  }

  /** The pattern of digests matches exactly the strict encodings of 32 bytes. */
  lemma {:induction false} DigestsAreEncodings(text: string)
    ensures IsDigest(text) <==> Base64.Decode(text, 32).Some?
  {
    Base64.DecodesExactlyCanonical(text, 32);
    if |text| == 43 {
      EndsAreFours(text[42]);
      assert (forall i :: 0 <= i < 43 ==> Base64.IsUrlDigit(text[i]))
             <==> (forall i :: 0 <= i < 42 ==> Base64.IsUrlDigit(text[i])) && Base64.IsUrlDigit(text[42]);
    }
  }

  lemma {:induction false} JoinIsAscii(lines: seq<string>)
    requires forall i :: 0 <= i < |lines| ==> IsAscii(lines[i])
    ensures IsAscii(Join(lines))
    decreases |lines|
  {
    if |lines| > 1 {
      JoinIsAscii(lines[1..]);
      var head := lines[0] + "\n";
      assert IsAscii(head);
      assert Join(lines) == head + Join(lines[1..]);
    }
  }

  lemma {:induction false} ValidatedIsAscii(frontier: seq<string>)
    requires Validates(frontier)
    ensures IsAscii(PREFIX + Join(frontier))
  {
    forall i | 0 <= i < |frontier|
      ensures IsAscii(frontier[i])
    {
    }
    JoinIsAscii(frontier);
  }

  // ----- lines -------------------------------------------------------------------------------

  lemma {:induction false} SplitLine(line: string, rest: string)
    requires '\n' !in line
    ensures Split(line + "\n" + rest) == [line] + Split(rest)
    decreases |line|
  {
    var text := line + "\n" + rest;
    if line == "" {
      assert text[1..] == rest;
    } else {
      SplitLine(line[1..], rest);
      assert text[1..] == line[1..] + "\n" + rest;
      assert [line[0]] + line[1..] == line;
    }
  }

  lemma {:induction false} SplitOne(line: string)
    requires '\n' !in line
    ensures Split(line) == [line]
    decreases |line|
  {
    if line != "" {
      SplitOne(line[1..]);
      assert [line[0]] + line[1..] == line;
    }
  }

  lemma {:induction false} SplitJoined(lines: seq<string>)
    requires lines != [] && forall i :: 0 <= i < |lines| ==> '\n' !in lines[i]
    ensures Split(Join(lines)) == lines
    decreases |lines|
  {
    if |lines| == 1 {
      SplitOne(lines[0]);
    } else {
      SplitLine(lines[0], Join(lines[1..]));
      SplitJoined(lines[1..]);
    }
  }

  lemma {:induction false} JoinSplit(text: string)
    ensures Join(Split(text)) == text
    decreases |text|
  {
    if text != "" {
      var rest := Split(text[1..]);
      JoinSplit(text[1..]);
      if text[0] == '\n' {
        assert ([""] + rest)[1..] == rest;
        assert Join([""] + rest) == "" + "\n" + Join(rest);
      }
      assert text == [text[0]] + text[1..];
    }
  }

  lemma {:induction false} JoinLength(lines: seq<string>)
    requires forall i :: 0 <= i < |lines| ==> |lines[i]| == 43
    ensures |Join(lines)| == if lines == [] then 0 else 44 * |lines| - 1
    decreases |lines|
  {
    if |lines| > 1 {
      JoinLength(lines[1..]);
    }
  }

  // ----- order -------------------------------------------------------------------------------

  lemma {:induction false} StepsAscend(frontier: seq<string>, i: nat, j: nat)
    requires i < j < |frontier| && forall k :: 0 < k < |frontier| ==> Less(frontier[k - 1], frontier[k])
    ensures Less(frontier[i], frontier[j])
    decreases j
  {
    if i < j - 1 {
      StepsAscend(frontier, i, j - 1);
      LessTransitive(frontier[i], frontier[j - 1], frontier[j]);
    }
  }

  /** What passes validation: at most 256 digests, strictly ascending. */
  lemma {:induction false} ValidatesExactly(frontier: seq<string>)
    ensures Validates(frontier)
            <==> && |frontier| <= MAX_HEADS && StrictlyAscending(frontier)
                 && forall i :: 0 <= i < |frontier| ==> IsDigest(frontier[i])
  {
    if Validates(frontier) {
      forall i, j | 0 <= i < j < |frontier|
        ensures Less(frontier[i], frontier[j])
      {
        StepsAscend(frontier, i, j);
      }
    }
  }

  lemma {:induction false} SortedStays(frontier: seq<string>)
    requires StrictlyAscending(frontier)
    ensures Sort(frontier) == frontier
  {
    SortSorts(frontier);
    forall i, j | 0 <= i < j < |frontier|
      ensures !Less(frontier[j], frontier[i])
    {
      LessAsymmetric(frontier[i], frontier[j]);
    }
    AscendingIsUnique(Sort(frontier), frontier);
  }

  lemma {:induction false} SortKeepsDigests(frontier: seq<string>)
    ensures (forall i :: 0 <= i < |frontier| ==> IsDigest(frontier[i]))
            <==> forall i :: 0 <= i < |Sort(frontier)| ==> IsDigest(Sort(frontier)[i])
  {
    var sorted := Sort(frontier);
    SortSorts(frontier);
    SameMembers(frontier, sorted);
    assert forall d :: d in frontier <==> d in SetOf(frontier);
    assert forall d :: d in sorted <==> d in SetOf(sorted);
    assert (forall i :: 0 <= i < |frontier| ==> IsDigest(frontier[i])) <==> forall d :: d in frontier ==> IsDigest(d);
    assert (forall i :: 0 <= i < |sorted| ==> IsDigest(sorted[i])) <==> forall d :: d in sorted ==> IsDigest(d);
  }

  // ----- a bijection -------------------------------------------------------------------------

  /** What is encoded: at most 256 digests, none twice, in any order. */
  lemma {:induction false} EncodesExactly(frontier: seq<string>)
    ensures Encode(frontier).Some?
            <==> && |frontier| <= MAX_HEADS && Distinct(frontier)
                 && forall i :: 0 <= i < |frontier| ==> IsDigest(frontier[i])
  {
    SortSorts(frontier);
    SortKeepsDigests(frontier);
    ValidatesExactly(Sort(frontier));
    DistinctSortStrictly(frontier);
  }

  lemma {:induction false} LinesJoined(frontier: seq<string>)
    requires Validates(frontier)
    ensures Lines(Join(frontier)) == frontier
    ensures |Join(frontier)| <= MAX_BYTES - |PREFIX|
  {
    forall i | 0 <= i < |frontier|
      ensures '\n' !in frontier[i] && |frontier[i]| == 43
    {
    }
    JoinLength(frontier);
    if frontier != [] {
      SplitJoined(frontier);
    }
  }

  lemma {:induction false} Latin1OfAscii(text: string)
    requires IsAscii(text)
    ensures Latin1(Ascii(text)) == text
  {
  }

  /** Every encoding fits, and decodes to the frontier in order. */
  lemma {:induction false} DecodesEncoded(frontier: seq<string>)
    requires Encode(frontier).Some?
    ensures |Encode(frontier).value| <= MAX_BYTES
    ensures Decode(Encode(frontier).value) == Some(Sort(frontier))
  {
    var sorted := Sort(frontier);
    LinesJoined(sorted);
    ValidatedIsAscii(sorted);
    DecodesText(sorted, PREFIX + Join(sorted));
  }

  lemma {:induction false} DecodesText(frontier: seq<string>, text: string)
    requires Validates(frontier) && IsAscii(text) && text == PREFIX + Join(frontier)
    requires |text| <= MAX_BYTES && Lines(Join(frontier)) == frontier
    ensures Decode(Ascii(text)) == Some(frontier)
  {
    Latin1OfAscii(text);
    assert text[|PREFIX|..] == Join(frontier);
  }

  /** What decodes is the one encoding of the frontier read, which is in order. */
  lemma {:induction false} EncodesDecoded(bytes: Bytes)
    requires Decode(bytes).Some?
    ensures StrictlyAscending(Decode(bytes).value)
    ensures Encode(Decode(bytes).value) == Some(bytes)
  {
    var frontier, text := Decode(bytes).value, Latin1(bytes);
    ValidatesExactly(frontier);
    SortedStays(frontier);
    ValidatedIsAscii(frontier);
    var body := text[|PREFIX|..];
    if body != "" {
      JoinSplit(body);
    }
    assert text == PREFIX + Join(frontier);
    AsciiOfLatin1(bytes);
  }

  lemma {:induction false} AsciiOfLatin1(bytes: Bytes)
    requires IsAscii(Latin1(bytes))
    ensures Ascii(Latin1(bytes)) == bytes
  {
  }

  /** Frontiers share an encoding exactly if they are the same set of digests. */
  lemma {:induction false} EncodesAlike(a: seq<string>, b: seq<string>)
    requires Encode(a).Some? && Encode(b).Some?
    ensures Encode(a) == Encode(b) <==> SetOf(a) == SetOf(b)
  {
    EncodesExactly(a);
    EncodesExactly(b);
    SetsSortAlike(a, b);
    DecodesEncoded(a);
    DecodesEncoded(b);
  }
}

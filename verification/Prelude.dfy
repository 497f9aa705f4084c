/** Shared vocabulary: optional values, bytes, safe integers, and the order JavaScript gives strings. */
module Prelude {

  datatype Option<+T> = None | Some(value: T)

  type Byte = b: int | 0 <= b < 0x100 witness 0

  type Bytes = seq<Byte>

  /** The texts in records that are only compared and decoded. */
  type Text(==, !new)

  /** A strict decoder: the bytes a text encodes, if as many as given. */
  type Decoder = (Text, nat) -> Option<Bytes>

  const MAX_SAFE_INTEGER: int := 9007199254740991

  predicate IsCounter(value: int) {
    0 <= value <= MAX_SAFE_INTEGER
  }

  function SetOf<T>(items: seq<T>): set<T> {
    set item | item in items
  }

  ghost predicate Distinct<T>(items: seq<T>) {
    forall i, j :: 0 <= i < j < |items| ==> items[i] != items[j]
  }

  /** No item repeats exactly if the set of them is as large as the list. */
  lemma {:induction false} SetSizeTellsDistinct<T>(items: seq<T>)
    ensures |SetOf(items)| <= |items|
    ensures |SetOf(items)| == |items| <==> Distinct(items)
    decreases |items|
  {
    if items != [] {
      var init, last := items[..|items| - 1], items[|items| - 1];
      SetSizeTellsDistinct(init);
      assert items == init + [last];
      assert SetOf(items) == SetOf(init) + {last};
      if last in init {
        assert SetOf(items) == SetOf(init);
      } else {
        assert |SetOf(items)| == |SetOf(init)| + 1;
        assert Distinct(init) ==> Distinct(items);
      }
      assert Distinct(items) ==> Distinct(init);
    }
  }

  lemma {:induction false} SubsetFits<T>(a: set<T>, b: set<T>)
    requires a <= b
    ensures |a| <= |b|
    ensures a < b ==> |a| < |b|
  {
    assert |b| == |a| + |b - a| by {
      assert b == a + (b - a);
    }
    if a < b {
      assert b - a != {};
    }
  }

  /** The strict order of `<` on strings: by the first differing character, a prefix being less. */
  predicate Less(a: string, b: string) {
    if b == "" then false
    else if a == "" then true
    else if a[0] != b[0] then a[0] < b[0]
    else Less(a[1..], b[1..])
  }

  /** The first place two strings differ decides, and where there is none, the longer is not less. */
  lemma {:induction false} LessExactly(a: string, b: string)
    ensures Less(a, b)
            <==> exists k :: 0 <= k <= |a| && k < |b| && a[..k] == b[..k] && (k == |a| || a[k] < b[k])
  {
    forall k | 0 < k <= |a| && k <= |b| && a[..k] == b[..k]
      ensures a[0] == b[0]
    {
      assert a[..k][0] == b[..k][0];
    }
    if a != "" && b != "" && a[0] == b[0] {
      LessExactly(a[1..], b[1..]);
      if Less(a, b) {
        var k :| 0 <= k <= |a[1..]| && k < |b[1..]| && a[1..][..k] == b[1..][..k]
                 && (k == |a[1..]| || a[1..][k] < b[1..][k]);
        assert a[..k + 1] == [a[0]] + a[1..][..k] && b[..k + 1] == [b[0]] + b[1..][..k];
      }
      forall k | 0 <= k <= |a| && k < |b| && a[..k] == b[..k] && (k == |a| || a[k] < b[k])
        ensures Less(a, b)
      {
        assert k > 0;
        assert a[1..][..k - 1] == a[..k][1..] && b[1..][..k - 1] == b[..k][1..];
      }
    } else if Less(a, b) {
      assert a[..0] == b[..0];
    }
  }

  lemma {:induction false} LessIrreflexive(a: string)
    ensures !Less(a, a)
  {
    if a != "" {
      LessIrreflexive(a[1..]);
    }
  }

  lemma {:induction false} LessTransitive(a: string, b: string, c: string)
    requires Less(a, b) && Less(b, c)
    ensures Less(a, c)
  {
    if a != "" && a[0] == b[0] == c[0] {
      LessTransitive(a[1..], b[1..], c[1..]);
    }
  }

  lemma {:induction false} LessTotal(a: string, b: string)
    ensures a == b || Less(a, b) || Less(b, a)
  {
    if a != "" && b != "" && a[0] == b[0] {
      LessTotal(a[1..], b[1..]);
      assert a == [a[0]] + a[1..] && b == [b[0]] + b[1..];
    }
  }

  lemma {:induction false} LessAsymmetric(a: string, b: string)
    requires Less(a, b)
    ensures !Less(b, a)
  {
    if Less(b, a) {
      LessTransitive(a, b, a);
      LessIrreflexive(a);
    }
  }
}

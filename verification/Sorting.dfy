/** Sorting strings ascending; which sorting algorithm runs makes no difference to what it returns. */
module Sorting {
  import opened Prelude

  ghost predicate Ascending(s: seq<string>) {
    forall i, j :: 0 <= i < j < |s| ==> !Less(s[j], s[i])
  }

  /** Ascending, and no two alike. */
  ghost predicate StrictlyAscending(s: seq<string>) {
    forall i, j :: 0 <= i < j < |s| ==> Less(s[i], s[j])
  }

  function Insert(s: seq<string>, x: string): seq<string> {
    if s == [] then [x]
    else if Less(x, s[0]) then [x] + s
    else [s[0]] + Insert(s[1..], x)
  }

  function Sort(s: seq<string>): seq<string> {
    if s == [] then [] else Insert(Sort(s[..|s| - 1]), s[|s| - 1])
  }

  lemma {:induction false} InsertKeeps(s: seq<string>, x: string)
    ensures multiset(Insert(s, x)) == multiset(s) + multiset{x}
    decreases |s|
  {
    if s != [] {
      InsertKeeps(s[1..], x);
      assert s == [s[0]] + s[1..];
      assert multiset(s) == multiset{s[0]} + multiset(s[1..]);
    }
  }

  lemma {:induction false} InsertAscends(s: seq<string>, x: string)
    requires Ascending(s)
    ensures Ascending(Insert(s, x))
    decreases |s|
  {
    var r := Insert(s, x);
    if s == [] {
    } else if Less(x, s[0]) {
      forall i, j | 0 <= i < j < |r|
        ensures !Less(r[j], r[i])
      {
        if i == 0 {
          if Less(r[j], x) {
            LessTransitive(r[j], x, s[0]);
            LessIrreflexive(s[0]);
          }
        } else {
          assert r[i] == s[i - 1] && r[j] == s[j - 1];
        }
      }
    } else {
      var rest := s[1..];
      InsertAscends(rest, x);
      InsertKeeps(rest, x);
      forall i, j | 0 <= i < j < |r|
        ensures !Less(r[j], r[i])
      {
        if i == 0 {
          assert r[j] in multiset(Insert(rest, x));
          assert r[j] == x || r[j] in rest;
        } else {
          assert r[i] == Insert(rest, x)[i - 1] && r[j] == Insert(rest, x)[j - 1];
        }
      }
    }
  }

  lemma {:induction false} SortSorts(s: seq<string>)
    ensures Ascending(Sort(s)) && multiset(Sort(s)) == multiset(s) && |Sort(s)| == |s|
    decreases |s|
  {
    if s != [] {
      var init, last := s[..|s| - 1], s[|s| - 1];
      SortSorts(init);
      InsertAscends(Sort(init), last);
      InsertKeeps(Sort(init), last);
      assert s == init + [last];
    }
    assert |multiset(Sort(s))| == |multiset(s)|;
  }

  lemma {:induction false} LeastComesFirst(s: seq<string>, x: string)
    requires Ascending(s) && x in s && forall y :: y in s ==> !Less(y, x)
    ensures s[0] == x
  {
    LessTotal(s[0], x);
    var i :| 0 <= i < |s| && s[i] == x;
    assert s[0] in s;
  }

  lemma {:induction false} FirstsAgree(s: seq<string>, t: seq<string>)
    requires Ascending(s) && Ascending(t) && multiset(s) == multiset(t) && s != []
    ensures t != [] && t[0] == s[0] && multiset(s[1..]) == multiset(t[1..])
  {
    assert s[0] in multiset(s) && s[0] in multiset(t);
    forall y | y in t
      ensures !Less(y, s[0])
    {
      assert y in multiset(t) && y in multiset(s);
      LessIrreflexive(s[0]);
    }
    LeastComesFirst(t, s[0]);
    assert s == [s[0]] + s[1..] && t == [t[0]] + t[1..];
    assert multiset(s[1..]) == multiset(s) - multiset{s[0]};
    assert multiset(t[1..]) == multiset(t) - multiset{t[0]};
  }

  /** Lists in order with the same members, as often, are the same list. */
  lemma {:induction false} AscendingIsUnique(s: seq<string>, t: seq<string>)
    requires Ascending(s) && Ascending(t) && multiset(s) == multiset(t)
    ensures s == t
    decreases |s|
  {
    if s == [] {
      assert |multiset(t)| == |t|;
    } else {
      FirstsAgree(s, t);
      AscendingIsUnique(s[1..], t[1..]);
      assert s == [s[0]] + s[1..] && t == [t[0]] + t[1..];
    }
  }

  lemma {:induction false} SortsAlike(s: seq<string>, t: seq<string>)
    ensures Sort(s) == Sort(t) <==> multiset(s) == multiset(t)
  {
    SortSorts(s);
    SortSorts(t);
    if multiset(s) == multiset(t) {
      AscendingIsUnique(Sort(s), Sort(t));
    }
  }

  lemma {:induction false} SameMembers(s: seq<string>, t: seq<string>)
    requires multiset(s) == multiset(t)
    ensures SetOf(s) == SetOf(t)
  {
    assert forall x :: x in s <==> x in multiset(s);
    assert forall x :: x in t <==> x in multiset(t);
  }

  /** Lists without repetition sort alike exactly if they are of the same set. */
  lemma {:induction false} SetsSortAlike(s: seq<string>, t: seq<string>)
    requires Distinct(s) && Distinct(t)
    ensures Sort(s) == Sort(t) <==> SetOf(s) == SetOf(t)
  {
    SortsAlike(s, t);
    DistinctCounts(s);
    DistinctCounts(t);
    if SetOf(s) == SetOf(t) {
      forall x | true
        ensures multiset(s)[x] == multiset(t)[x]
      {
        assert x in s <==> x in SetOf(s);
        assert x in t <==> x in SetOf(t);
      }
    }
    if multiset(s) == multiset(t) {
      SameMembers(s, t);
    }
  }

  lemma {:induction false} DistinctCounts(s: seq<string>)
    requires Distinct(s)
    ensures forall x :: multiset(s)[x] == if x in s then 1 else 0
    decreases |s|
  {
    if s != [] {
      var init, last := s[..|s| - 1], s[|s| - 1];
      assert s == init + [last];
      DistinctCounts(init);
      assert multiset(s) == multiset(init) + multiset{last};
    }
  }

  lemma {:induction false} DistinctSortStrictly(s: seq<string>)
    ensures StrictlyAscending(Sort(s)) <==> Distinct(s)
  {
    var t := Sort(s);
    SortSorts(s);
    if Distinct(s) {
      forall i, j | 0 <= i < j < |t|
        ensures Less(t[i], t[j])
      {
        LessTotal(t[i], t[j]);
        DistinctCounts(s);
        SplitTwo(t, i, j);
      }
    }
    if StrictlyAscending(t) {
      StrictIsDistinct(t);
      SetSizeTellsDistinct(t);
      SetSizeTellsDistinct(s);
      SameMembers(s, t);
    }
  }

  lemma {:induction false} StrictIsDistinct(s: seq<string>)
    requires StrictlyAscending(s)
    ensures Distinct(s)
  {
    forall i, j | 0 <= i < j < |s|
      ensures s[i] != s[j]
    {
      LessIrreflexive(s[i]);
    }
  }

  lemma {:induction false} SplitTwo(t: seq<string>, i: nat, j: nat)
    requires i < j < |t|
    ensures t[i] == t[j] ==> multiset(t)[t[i]] >= 2
  {
    assert t == t[..j] + [t[j]] + t[j + 1..];
    assert t[i] == t[..j][i];
    assert t[i] in multiset(t[..j]);
    assert multiset(t) == multiset(t[..j]) + multiset{t[j]} + multiset(t[j + 1..]);
  }
}

/** The replay window of one sealer: a circular buffer of 1024 flags, and the ideal window it refines. */
module CallMediaReplayWindows {

  const SIZE: nat := 1024

  /** The ideal window: the highest sequence accepted and every sequence ever accepted. */
  datatype Window = Window(highest: int, accepted: set<nat>) {
    predicate Admits(sequence: nat) {
      sequence > highest || (sequence > highest - SIZE && sequence !in accepted)
    }

    function Accept(sequence: nat): Window {
      Window(if sequence > highest then sequence else highest, accepted + {sequence})
    }

    ghost predicate WellFormed() {
      && highest >= -1
      && (forall s :: s in accepted ==> s <= highest)
      && (highest >= 0 ==> highest in accepted)
    }
  }

  const EMPTY := Window(-1, {})

  // ----- runs of the ideal window ------------------------------------------------------------

  function Offered(w: Window, sequence: nat): Window {
    if w.Admits(sequence) then w.Accept(sequence) else w
  }

  /** Offers sequences in turn; tells which were accepted. */
  function Offer(w: Window, sequences: seq<nat>): (Window, seq<bool>)
    decreases |sequences|
  {
    if sequences == [] then (w, [])
    else
      var (end, rest) := Offer(Offered(w, sequences[0]), sequences[1..]);
      (end, [w.Admits(sequences[0])] + rest)
  }

  lemma {:induction false} OfferKeeps(w: Window, sequences: seq<nat>)
    requires w.WellFormed()
    ensures var (end, taken) := Offer(w, sequences);
            |taken| == |sequences| && end.WellFormed() && w.accepted <= end.accepted
    decreases |sequences|
  {
    if sequences != [] {
      OfferKeeps(Offered(w, sequences[0]), sequences[1..]);
    }
  }

  lemma {:induction false} OfferTakesNew(w: Window, sequences: seq<nat>, i: nat)
    requires w.WellFormed() && i < |sequences| && |Offer(w, sequences).1| == |sequences|
    requires Offer(w, sequences).1[i]
    ensures sequences[i] !in w.accepted && sequences[i] in Offer(w, sequences).0.accepted
    decreases |sequences|
  {
    var next := Offered(w, sequences[0]);
    OfferKeeps(next, sequences[1..]);
    if i > 0 {
      OfferTakesNew(next, sequences[1..], i - 1);
    }
  }

  lemma {:induction false} OfferNeverTwice(w: Window, sequences: seq<nat>, i: nat, j: nat)
    requires w.WellFormed() && i < j < |sequences| && |Offer(w, sequences).1| == |sequences|
    requires Offer(w, sequences).1[i] && Offer(w, sequences).1[j]
    ensures sequences[i] != sequences[j]
    decreases |sequences|
  {
    var next := Offered(w, sequences[0]);
    OfferKeeps(next, sequences[1..]);
    if i > 0 {
      OfferNeverTwice(next, sequences[1..], i - 1, j - 1);
    } else {
      OfferTakesNew(next, sequences[1..], j - 1);
    }
  }

  lemma {:induction false} OfferRemembers(w: Window, sequences: seq<nat>, sequence: nat)
    requires w.WellFormed() && |Offer(w, sequences).1| == |sequences|
    requires sequence in Offer(w, sequences).0.accepted
    ensures sequence in w.accepted
            || exists i :: 0 <= i < |sequences| && Offer(w, sequences).1[i] && sequences[i] == sequence
    decreases |sequences|
  {
    if sequences != [] && sequence !in w.accepted {
      var next, rest := Offered(w, sequences[0]), sequences[1..];
      OfferKeeps(next, rest);
      OfferRemembers(next, rest, sequence);
      if sequence in next.accepted {
        assert Offer(w, sequences).1[0] && sequences[0] == sequence;
      } else {
        var i :| 0 <= i < |rest| && Offer(next, rest).1[i] && rest[i] == sequence;
        assert Offer(w, sequences).1[i + 1] && sequences[i + 1] == sequence;
      }
    }
  }

  /**
   * After any run a sequence is admitted exactly when it lies above the highest accepted, or
   * among the last 1024 and was never accepted; and none was accepted twice.
   */
  lemma {:induction false} AdmitsExactlyTheNew(sequences: seq<nat>, sequence: nat)
    ensures var (end, taken) := Offer(EMPTY, sequences);
            && |taken| == |sequences|
            && var accepted := set i | 0 <= i < |sequences| && taken[i] :: sequences[i];
               && (forall s :: s in accepted ==> s <= end.highest)
               && (end.highest == -1 <==> accepted == {})
               && (end.highest >= 0 ==> end.highest in accepted)
               && (end.Admits(sequence) <==>
                     sequence > end.highest || (sequence > end.highest - SIZE && sequence !in accepted))
               && forall i, j :: 0 <= i < j < |sequences| && taken[i] && taken[j] ==> sequences[i] != sequences[j]
  {
    OfferKeeps(EMPTY, sequences);
    var (end, taken) := Offer(EMPTY, sequences);
    var accepted := set i | 0 <= i < |sequences| && taken[i] :: sequences[i];
    forall s | s in accepted
      ensures s in end.accepted
    {
      var i :| 0 <= i < |sequences| && taken[i] && sequences[i] == s;
      OfferTakesNew(EMPTY, sequences, i);
    }
    forall s | s in end.accepted
      ensures s in accepted
    {
      OfferRemembers(EMPTY, sequences, s);
    }
    assert end.accepted == accepted;
    forall i, j | 0 <= i < j < |sequences| && taken[i] && taken[j]
      ensures sequences[i] != sequences[j]
    {
      OfferNeverTwice(EMPTY, sequences, i, j);
    }
  }

  // ----- the circular buffer -----------------------------------------------------------------

  lemma {:induction false} NearSequencesUseOwnSlots(a: nat, b: nat)
    requires a < b < a + SIZE
    ensures a % SIZE != b % SIZE
  {
  }

  /** Every slot is that of one of the `SIZE` sequences past `highest`. */
  lemma {:induction false} SlotComesRound(highest: int, sequence: nat) returns (near: nat)
    requires highest >= -1
    ensures highest < near <= highest + SIZE && near % SIZE == sequence % SIZE
  {
    near := highest + 1 + (sequence - highest - 1) % SIZE;
  }

  class CallMediaReplayWindow {
    const slots: array<bool>
    var highest: int
    ghost var ideal: Window

    ghost predicate Valid()
      reads this, slots
    {
      && slots.Length == SIZE
      && ideal.WellFormed()
      && ideal.highest == highest
      && forall s: nat :: highest - SIZE < s <= highest ==> slots[s % SIZE] == (s in ideal.accepted)
    }

    constructor ()
      ensures Valid() && fresh(slots) && ideal == EMPTY
    {
      slots := new bool[SIZE](_ => false);
      highest := -1;
      ideal := EMPTY;
    }

    predicate Admits(sequence: nat)
      requires Valid()
      reads this, slots
      ensures Admits(sequence) == ideal.Admits(sequence)
    {
      sequence > highest || (sequence > highest - SIZE && !slots[sequence % SIZE])
    }

    /** False stands for the rejection of a sequence not admitted. */
    method Accept(sequence: nat) returns (accepted: bool)
      requires Valid()
      modifies this, slots
      ensures Valid()
      ensures accepted == old(ideal.Admits(sequence))
      ensures ideal == if accepted then old(ideal).Accept(sequence) else old(ideal)
    {
      if !Admits(sequence) {
        return false;
      }
      var advance := if sequence - highest < SIZE then sequence - highest else SIZE;
      var step := 1;
      while step <= advance
        invariant 1 <= step && (step <= advance + 1 || step == 1)
        invariant highest == old(highest) && ideal == old(ideal)
        invariant forall s: nat :: highest < s < highest + step ==> !slots[s % SIZE]
        invariant forall s: nat :: highest + step - 1 - SIZE < s <= highest ==> slots[s % SIZE] == old(slots[s % SIZE])
      {
        var next: nat := highest + step;
        ghost var before := slots[..];
        slots[next % SIZE] := false;
        forall s: nat | highest + step - SIZE < s <= highest
          ensures slots[s % SIZE] == before[s % SIZE]
        {
          NearSequencesUseOwnSlots(s, next);
        }
        step := step + 1;
      }
      ghost var cleared := slots[..];
      ghost var top := if sequence > highest then sequence else highest;
      forall s: nat | top - SIZE < s <= top
        ensures cleared[s % SIZE] == (s in ideal.accepted)
      {
        if s > highest {
          var near := SlotComesRound(highest, s);
          if s < highest + step {
            near := s;
          }
          assert !slots[near % SIZE];
        }
      }
      ideal := ideal.Accept(sequence);
      if sequence > highest {
        highest := sequence;
      }
      slots[sequence % SIZE] := true;
      forall s: nat | highest - SIZE < s <= highest
        ensures slots[s % SIZE] == (s in ideal.accepted)
      {
        if s < sequence {
          NearSequencesUseOwnSlots(s, sequence);
        } else if sequence < s {
          NearSequencesUseOwnSlots(sequence, s);
        }
      }
      return true;
    }
  }
}

/**
 * The opener as an object whose methods are the stretches between awaits. Calls in flight are
 * kept by token; what they share is the fields and the replay windows the fields lead to.
 */
module CallMediaFrameOpeners {
  import opened Prelude
  import opened CallMediaReplayWindows
  import opened CallMediaFrameOpenerModel

  /** An epoch object, with the replay window of each sealer retained. */
  datatype EpochObject = EpochObject(epoch: nat, callKey: Bytes, sealers: map<Bytes, CallMediaReplayWindow>)

  ghost function WindowsOf(objects: seq<EpochObject>): set<CallMediaReplayWindow> {
    set r, s | 0 <= r < |objects| && s in objects[r].sealers :: objects[r].sealers[s]
  }

  ghost function SlotsOf(windows: set<CallMediaReplayWindow>): set<array<bool>> {
    set w | w in windows :: w.slots
  }

  /** Every sealer of every epoch object has a window, and flags, of its own. */
  ghost predicate Apart(objects: seq<EpochObject>) {
    forall q, r, s, t ::
      && 0 <= q < |objects| && s in objects[q].sealers
      && 0 <= r < |objects| && t in objects[r].sealers
      && (q != r || s != t) ==>
        && objects[q].sealers[s] != objects[r].sealers[t]
        && objects[q].sealers[s].slots != objects[r].sealers[t].slots
  }

  ghost predicate WindowsValid(windows: set<CallMediaReplayWindow>)
    reads windows, SlotsOf(windows)
  {
    forall w :: w in windows ==> w.Valid()
  }

  ghost function Ideal(kept: EpochObject): Held
    reads kept.sealers.Values
  {
    Held(kept.epoch, kept.callKey, map s | s in kept.sealers :: kept.sealers[s].ideal)
  }

  lemma {:induction false} IdealSealers(kept: EpochObject)
    ensures |Ideal(kept).sealers| == |kept.sealers|
  {
    assert Ideal(kept).sealers.Keys == kept.sealers.Keys;
    assert |Ideal(kept).sealers.Keys| == |Ideal(kept).sealers| && |kept.sealers.Keys| == |kept.sealers|;
  }

  ghost function Ideals(objects: seq<EpochObject>): (ideals: seq<Held>)
    reads WindowsOf(objects)
    ensures |ideals| == |objects|
    ensures forall r :: 0 <= r < |objects| ==> ideals[r] == Ideal(objects[r])
  {
    seq(|objects|, r requires 0 <= r < |objects| reads WindowsOf(objects) => Ideal(objects[r]))
  }

  lemma {:induction false} NewObject(objects: seq<EpochObject>, epoch: nat, callKey: Bytes)
    ensures var after := objects + [EpochObject(epoch, callKey, map[])];
            && WindowsOf(after) == WindowsOf(objects) && (Apart(objects) ==> Apart(after))
            && Ideals(after) == Ideals(objects) + [Held(epoch, callKey, map[])]
  {
    var after := objects + [EpochObject(epoch, callKey, map[])];
    assert forall r :: 0 <= r < |objects| ==> after[r] == objects[r];
    assert Ideal(after[|objects|]).sealers == map[];
    forall w | w in WindowsOf(objects)
      ensures w in WindowsOf(after)
    {
      var r, s :| 0 <= r < |objects| && s in objects[r].sealers && objects[r].sealers[s] == w;
      assert after[r].sealers[s] == w;
    }
  }

  /** The objects once `window` is that of a sealer of the one at `held`. */
  function WithWindow(objects: seq<EpochObject>, held: nat, sealerId: Bytes, window: CallMediaReplayWindow):
    (after: seq<EpochObject>)
    requires held < |objects|
    ensures |after| == |objects|
  {
    objects[held := objects[held].(sealers := objects[held].sealers[sealerId := window])]
  }

  lemma {:induction false} OthersApart(objects: seq<EpochObject>, held: nat, sealerId: Bytes)
    requires Apart(objects) && held < |objects| && sealerId in objects[held].sealers
    ensures var window := objects[held].sealers[sealerId];
            && window in WindowsOf(objects) && WithWindow(objects, held, sealerId, window) == objects
            && forall w :: w in WindowsOf(objects) && w != window ==> w.slots != window.slots
  {
    var kept := objects[held];
    assert kept.sealers[sealerId := kept.sealers[sealerId]] == kept.sealers;
    assert objects[held := kept] == objects;
  }

  lemma {:induction false} NewWindows(objects: seq<EpochObject>, held: nat, sealerId: Bytes,
                                      window: CallMediaReplayWindow)
    requires held < |objects| && sealerId !in objects[held].sealers
    ensures WindowsOf(WithWindow(objects, held, sealerId, window)) == WindowsOf(objects) + {window}
  {
    var after := WithWindow(objects, held, sealerId, window);
    assert after[held].sealers[sealerId] == window;
    forall w | w in WindowsOf(objects)
      ensures w in WindowsOf(after)
    {
      var r, s :| 0 <= r < |objects| && s in objects[r].sealers && objects[r].sealers[s] == w;
      assert after[r].sealers[s] == w;
    }
  }

  lemma {:induction false} NewApart(objects: seq<EpochObject>, held: nat, sealerId: Bytes,
                                    window: CallMediaReplayWindow)
    requires Apart(objects) && held < |objects| && sealerId !in objects[held].sealers
    requires window !in WindowsOf(objects) && window.slots !in SlotsOf(WindowsOf(objects))
    ensures Apart(WithWindow(objects, held, sealerId, window))
  {
    var after := WithWindow(objects, held, sealerId, window);
    forall r, s | 0 <= r < |after| && s in after[r].sealers
      ensures if r == held && s == sealerId then after[r].sealers[s] == window
              else s in objects[r].sealers && after[r].sealers[s] == objects[r].sealers[s]
                   && after[r].sealers[s] in WindowsOf(objects)
                   && after[r].sealers[s].slots in SlotsOf(WindowsOf(objects))
    {
    }
  }

  /** The ideals once that of one sealer is `window`. */
  function WithIdeal(ideals: seq<Held>, held: nat, sealerId: Bytes, window: Window): seq<Held>
    requires held < |ideals|
  {
    ideals[held := ideals[held].(sealers := ideals[held].sealers[sealerId := window])]
  }

  /** Only the ideal of one sealer changes when only its window does. */
  lemma {:induction false} OneIdealChanges(before: seq<Held>, objects: seq<EpochObject>, held: nat, sealerId: Bytes,
                                           window: CallMediaReplayWindow)
    requires held < |objects| == |before|
    requires forall r :: 0 <= r < |objects| ==>
               && before[r].epoch == objects[r].epoch && before[r].callKey == objects[r].callKey
               && before[r].sealers.Keys == objects[r].sealers.Keys
    requires forall r, s :: 0 <= r < |objects| && s in objects[r].sealers && !(r == held && s == sealerId) ==>
               objects[r].sealers[s].ideal == before[r].sealers[s]
    ensures Ideals(WithWindow(objects, held, sealerId, window))
            == WithIdeal(before, held, sealerId, window.ideal)
  {
    var after := WithWindow(objects, held, sealerId, window);
    forall r | 0 <= r < |objects|
      ensures Ideal(after[r]) == if r != held then before[r]
                                 else before[r].(sealers := before[r].sealers[sealerId := window.ideal])
    {
      assert Ideal(after[r]).sealers
             == if r != held then before[r].sealers else before[r].sealers[sealerId := window.ideal];
    }
  }

  lemma {:induction false} NewRetained(objects: seq<EpochObject>, held: nat, sealerId: Bytes,
                                       window: CallMediaReplayWindow)
    requires Apart(objects) && WindowsValid(WindowsOf(objects)) && held < |objects|
             && sealerId !in objects[held].sealers
    requires window !in WindowsOf(objects) && window.slots !in SlotsOf(WindowsOf(objects)) && window.Valid()
    ensures var after := WithWindow(objects, held, sealerId, window);
            && Apart(after) && WindowsValid(WindowsOf(after)) && WindowsOf(after) == WindowsOf(objects) + {window}
            && SlotsOf(WindowsOf(after)) == SlotsOf(WindowsOf(objects)) + {window.slots}
            && Ideals(after) == WithIdeal(Ideals(objects), held, sealerId, window.ideal)
  {
    NewWindows(objects, held, sealerId, window);
    NewApart(objects, held, sealerId, window);
    OneIdealChanges(Ideals(objects), objects, held, sealerId, window);
  }

  class CallMediaFrameOpener {
    const media: Media
    var objects: seq<EpochObject>
    var epochs: map<nat, nat>
    var latestEpoch: int
    var opens: map<nat, Flight>
    var imports: map<nat, nat>
    ghost var delivered: seq<Delivery>
    ghost var history: seq<Event>

    ghost function Windows(): set<CallMediaReplayWindow>
      reads this
    {
      WindowsOf(objects)
    }

    /** Every object the opener changes but itself. */
    ghost function Footprint(): set<object>
      reads this
    {
      Windows() + SlotsOf(Windows())
    }

    ghost function View(): Opener
      reads this, Windows()
    {
      Opener(Ideals(objects), epochs, latestEpoch, opens, imports, delivered)
    }

    /** The windows are sound and each a sealer's own, and all that is held came of the steps so far. */
    ghost predicate Valid()
      reads this, Windows(), SlotsOf(Windows())
    {
      Apart(objects) && WindowsValid(Windows()) && View() == Run(media, NEW_OPENER, history)
    }

    /** So whatever the calls and their order, the opener keeps the invariant. */
    lemma {:induction false} KeepsInv()
      requires Valid()
      ensures Inv(media, View())
    {
      RunKeepsInv(media, NEW_OPENER, history);
    }

    constructor (media: Media)
      ensures Valid() && this.media == media && View() == NEW_OPENER && Windows() == {} && history == []
    {
      this.media := media;
      objects, epochs, latestEpoch, opens, imports := [], map[], -1, map[], map[];
      delivered, history := [], [];
    }

    /** The least epoch held. */
    method EarliestEpoch() returns (least: nat)
      requires epochs.Keys != {}
      ensures IsLeast(least, epochs.Keys)
    {
      least :| least in epochs.Keys;
      var rest := epochs.Keys - {least};
      while rest != {}
        invariant rest <= epochs.Keys && least in epochs.Keys
        invariant forall e :: e in epochs.Keys ==> least <= e || e in rest
        decreases |rest|
      {
        var e :| e in rest;
        if e < least {
          least := e;
        }
        rest := rest - {e};
      }
    }

    /** Whether an epoch held is the greatest held. */
    method IsLatestHeld(epoch: nat) returns (latest: bool)
      requires epoch in epochs.Keys
      ensures latest == IsGreatest(epoch, epochs.Keys)
    {
      var greatest := epoch;
      var rest := epochs.Keys;
      while rest != {}
        invariant rest <= epochs.Keys && greatest in epochs.Keys && epoch <= greatest
        invariant forall e :: e in epochs.Keys ==> e <= greatest || e in rest
        decreases |rest|
      {
        var e :| e in rest;
        if e > greatest {
          greatest := e;
        }
        rest := rest - {e};
      }
      latest := epoch == greatest;
    }

    method DropEpochsBefore(epoch: nat)
      modifies this`epochs
      ensures epochs == DropBefore(old(epochs), epoch)
    {
      var rest := epochs.Keys;
      while rest != {}
        invariant rest <= epochs.Keys <= old(epochs).Keys
        invariant forall e :: e in epochs ==> epochs[e] == old(epochs)[e]
        invariant forall e :: e in old(epochs) ==> (e in epochs <==> e in rest || e >= epoch)
        decreases |rest|
      {
        var held :| held in rest;
        rest := rest - {held};
        if held < epoch {
          epochs := epochs - {held};
        }
      }
    }

    /** Records the sequence for the sealer of an epoch object; refuses what it admits no more. */
    method Retain(held: nat, sealerId: Bytes, sequence: nat) returns (retained: bool)
      requires held < |objects| && Apart(objects) && WindowsValid(Windows())
      modifies this`objects, Footprint()
      ensures Apart(objects) && WindowsValid(Windows())
      ensures fresh(Windows() - old(Windows())) && fresh(SlotsOf(Windows()) - old(SlotsOf(Windows())))
      ensures var before := old(Ideals(objects));
              var kept := Retained(before[held], sealerId, sequence);
              && retained == kept.Some?
              && Ideals(objects) == if retained then before[held := kept.value] else before
    {
      IdealSealers(objects[held]);
      if sealerId in objects[held].sealers {
        retained := RetainKnown(held, sealerId, sequence);
      } else if |objects[held].sealers| >= MAX_SEALERS_PER_EPOCH {
        retained := false;
      } else {
        RetainNew(held, sealerId, sequence);
        retained := true;
      }
    }

    method RetainKnown(held: nat, sealerId: Bytes, sequence: nat) returns (retained: bool)
      requires held < |objects| && sealerId in objects[held].sealers
      requires Apart(objects) && WindowsValid(Windows())
      modifies Footprint()
      ensures WindowsValid(Windows())
      ensures var before := old(Ideals(objects));
              && retained == before[held].sealers[sealerId].Admits(sequence)
              && Ideals(objects)
                 == if retained
                    then WithIdeal(before, held, sealerId, before[held].sealers[sealerId].Accept(sequence))
                    else before
    {
      ghost var before := Ideals(objects);
      OthersApart(objects, held, sealerId);
      var window := objects[held].sealers[sealerId];
      retained := window.Accept(sequence);
      OneIdealChanges(before, objects, held, sealerId, window);
      if !retained {
        assert before[held].sealers[sealerId := window.ideal] == before[held].sealers;
      }
    }

    /** The window a call in flight derived, with the sequence accepted. */
    method NewWindow(sequence: nat) returns (window: CallMediaReplayWindow)
      ensures fresh(window) && fresh(window.slots) && window.Valid() && window.ideal == EMPTY.Accept(sequence)
    {
      window := new CallMediaReplayWindow();
      var accepted := window.Accept(sequence);
    }

    method RetainNew(held: nat, sealerId: Bytes, sequence: nat)
      requires held < |objects| && sealerId !in objects[held].sealers
      requires Apart(objects) && WindowsValid(Windows())
      modifies this`objects
      ensures Apart(objects) && WindowsValid(Windows())
      ensures fresh(Windows() - old(Windows())) && fresh(SlotsOf(Windows()) - old(SlotsOf(Windows())))
      ensures Ideals(objects) == WithIdeal(old(Ideals(objects)), held, sealerId, EMPTY.Accept(sequence))
    {
      var window := NewWindow(sequence);
      NewRetained(objects, held, sealerId, window);
      objects := WithWindow(objects, held, sealerId, window);
    }

    /** Adds a step just made to the history. */
    ghost method Record(before: Opener, event: Event)
      requires Apart(objects) && WindowsValid(Windows())
      requires before == Run(media, NEW_OPENER, history) && View() == Step(media, before, event)
      modifies this`history
      ensures Valid() && history == old(history) + [event] && View() == old(View())
    {
      RunOn(media, NEW_OPENER, history, event);
      history := history + [event];
    }

    /** Drops the earliest epoch held if it is one too many. */
    method DropEarliest()
      requires epochs.Keys != {}
      modifies this`epochs
      ensures epochs == if |old(epochs)| > MAX_EPOCHS then old(epochs) - {Least(old(epochs).Keys)} else old(epochs)
    {
      if |epochs| > MAX_EPOCHS {
        var least := EarliestEpoch();
        epochs := epochs - {least};
      }
    }

    /** Holds a new epoch object. */
    method Hold(callKey: Bytes, epoch: nat)
      requires Apart(objects)
      modifies this`objects, this`epochs
      ensures Apart(objects) && Windows() == old(Windows())
      ensures Ideals(objects) == old(Ideals(objects)) + [Held(epoch, callKey, map[])]
      ensures epochs == old(epochs)[epoch := old(|objects|)]
    {
      NewObject(objects, epoch, callKey);
      epochs := epochs[epoch := |objects|];
      objects := objects + [EpochObject(epoch, callKey, map[])];
    }

    /** `addKey` up to its await. */
    method AddKey(token: nat, isKey: bool, callKey: Bytes, epoch: int) returns (rejected: bool)
      requires Valid()
      modifies this
      ensures Valid() && Windows() == old(Windows())
      ensures history == old(history) + [Event.AddKey(token, isKey, callKey, epoch)]
      ensures View() == Begun(old(View()), token, isKey, callKey, epoch)
      ensures rejected <==> View() == old(View())
    {
      ghost var before := View();
      rejected := token in imports || !isKey || epoch < 0 || epoch > MAX_EPOCH || epoch <= latestEpoch;
      if !rejected {
        Admit(token, callKey, epoch);
      }
      Record(before, Event.AddKey(token, isKey, callKey, epoch));
    }

    method Admit(token: nat, callKey: Bytes, epoch: nat)
      requires Apart(objects) && WindowsValid(Windows())
      modifies this`objects, this`epochs, this`latestEpoch, this`imports
      ensures Apart(objects) && WindowsValid(Windows()) && Windows() == old(Windows())
      ensures Ideals(objects) == old(Ideals(objects)) + [Held(epoch, callKey, map[])]
      ensures latestEpoch == epoch && imports == old(imports)[token := epoch]
      ensures epochs == var all := old(epochs)[epoch := |old(objects)|];
                        if |all| > MAX_EPOCHS then all - {Least(all.Keys)} else all
    {
      Hold(callKey, epoch);
      latestEpoch := epoch;
      imports := imports[token := epoch];
      assert epoch in epochs.Keys;
      DropEarliest();
    }

    /** The rest of `addKey`, once the key is imported or was refused. */
    method Imported(token: nat, ok: bool)
      requires Valid()
      modifies this`epochs, this`imports, this`history
      ensures Valid() && history == old(history) + [Event.Imported(token, ok)]
      ensures View() == Landed(old(View()), token, ok)
    {
      ghost var before := View();
      if token in imports {
        if !ok {
          epochs := epochs - {imports[token]};
        }
        imports := imports - {token};
      }
      Record(before, Event.Imported(token, ok));
    }

    /** Whether the sealer is known; none when it is not and there is no room for it. */
    method SealerOf(held: nat, sealerId: Bytes) returns (known: Option<bool>)
      requires held < |objects|
      ensures var sealers := Ideals(objects)[held].sealers;
              known == if sealerId in sealers then Some(true)
                       else if |sealers| >= MAX_SEALERS_PER_EPOCH then None else Some(false)
    {
      IdealSealers(objects[held]);
      if sealerId in objects[held].sealers {
        return Some(true);
      }
      return if |objects[held].sealers| >= MAX_SEALERS_PER_EPOCH then None else Some(false);
    }

    /** The call in flight a frame of an epoch held begins; none when it is refused. */
    method Begin(token: nat, frame: Bytes, track: string) returns (flight: Option<Flight>)
      ensures Started(media, View(), token, frame, track)
              == if flight.None? then View() else View().(opens := opens[token := flight.value])
    {
      flight := None;
      var read := media.read(frame);
      if token !in opens && read.Some? && read.value.epoch in epochs {
        var header := read.value;
        var held := epochs[header.epoch];
        if held < |objects| {
          var known := SealerOf(held, header.sealerId);
          if known.Some? {
            flight := Some(Flight(held, header, track, frame, known.value, false));
          }
        }
      }
    }

    /** `open` up to the sealer key. */
    method Open(token: nat, frame: Bytes, track: string)
      requires Valid()
      modifies this`opens, this`history
      ensures Valid() && history == old(history) + [Event.Open(token, frame, track)]
      ensures View() == Started(media, old(View()), token, frame, track)
    {
      ghost var before := View();
      var flight := Begin(token, frame, track);
      if flight.Some? {
        opens := opens[token := flight.value];
      }
      Record(before, Event.Open(token, frame, track));
    }

    /** Whether the window a call in flight holds admits its sequence: the retained one, or its own. */
    method WindowAdmits(flight: Flight) returns (admits: bool)
      requires WindowsValid(Windows())
      ensures admits == WindowOf(View(), flight).Admits(flight.header.sequence)
    {
      if flight.known && flight.held < |objects| && flight.header.sealerId in objects[flight.held].sealers {
        var window := objects[flight.held].sealers[flight.header.sealerId];
        assert window in Windows();
        admits := window.Admits(flight.header.sequence);
      } else {
        var window := new CallMediaReplayWindow();
        admits := window.Admits(flight.header.sequence);
      }
    }

    /** `open` from the sealer key to the decryption. */
    method Derived(token: nat, ok: bool)
      requires Valid()
      modifies this`opens, this`history
      ensures Valid() && history == old(history) + [Event.Derived(token, ok)]
      ensures View() == Checked(old(View()), token, ok)
    {
      ghost var before := View();
      if token in opens && !opens[token].admitted {
        var flight := opens[token];
        var admits := WindowAdmits(flight);
        if (flight.known || ok) && admits {
          opens := opens[token := flight.(admitted := true)];
        } else {
          opens := opens - {token};
        }
      }
      Record(before, Event.Derived(token, ok));
    }

    /** Delivers, and drops the older epochs when this one is the latest held. */
    method Conclude(d: Delivery)
      requires d.header.epoch in epochs
      modifies this`epochs, this`delivered
      ensures delivered == old(delivered) + [d]
      ensures epochs == if IsGreatest(d.header.epoch, old(epochs).Keys) then DropBefore(old(epochs), d.header.epoch)
                        else old(epochs)
    {
      var latest := IsLatestHeld(d.header.epoch);
      if latest {
        DropEpochsBefore(d.header.epoch);
      }
      delivered := delivered + [d];
    }

    /** Delivers what a call in flight decrypted, if its epoch object is still held and retains the sequence. */
    method Deliver(flight: Flight, plaintext: Option<Bytes>) returns (result: Option<Bytes>)
      requires flight.held < |objects| && Apart(objects) && WindowsValid(Windows())
      modifies this`objects, this`epochs, this`delivered, Footprint()
      ensures Apart(objects) && WindowsValid(Windows())
      ensures fresh(Windows() - old(Windows())) && fresh(SlotsOf(Windows()) - old(SlotsOf(Windows())))
      ensures View() == Delivered(old(View()), flight, plaintext)
      ensures result.None? <==> |delivered| == old(|delivered|)
      ensures result.Some? ==> delivered != [] && result.value == delivered[|delivered| - 1].plaintext
    {
      var header := flight.header;
      if plaintext.Some? && header.epoch in epochs && epochs[header.epoch] == flight.held {
        var retained := Retain(flight.held, header.sealerId, header.sequence);
        if retained {
          Conclude(Delivery(header, flight.track, flight.frame, plaintext.value));
          return plaintext;
        }
      }
      return None;
    }

    /** The rest of `open`: the plaintext, or none for a rejection. */
    method Decrypted(token: nat) returns (result: Option<Bytes>)
      requires Valid()
      modifies this, Footprint()
      ensures Valid() && fresh(Windows() - old(Windows())) && fresh(SlotsOf(Windows()) - old(SlotsOf(Windows())))
      ensures history == old(history) + [Event.Decrypted(token)]
      ensures View() == Finished(media, old(View()), token)
      ensures result.None? <==> |delivered| == old(|delivered|)
      ensures result.Some? ==> delivered != [] && result.value == delivered[|delivered| - 1].plaintext
    {
      ghost var before := View();
      result := None;
      if token in opens && opens[token].admitted && opens[token].held < |objects| {
        var flight := opens[token];
        opens := opens - {token};
        var plaintext := media.open(objects[flight.held].callKey, flight.header, flight.track, flight.frame);
        result := Deliver(flight, plaintext);
      }
      Record(before, Event.Decrypted(token));
    }
  }
}

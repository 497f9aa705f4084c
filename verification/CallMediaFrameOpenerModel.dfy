/**
 * The opener of call media frames as interleaved steps. A call of `open` or `addKey` runs from
 * one await to the next as one step; calls in flight step in any order. Epochs and the calls in
 * flight refer to epoch objects by their place in `objects`, as the source does by reference.
 */
module CallMediaFrameOpenerModel {
  import opened Prelude
  import opened CallMediaReplayWindows

  const MAX_EPOCHS: nat := 2
  const MAX_SEALERS_PER_EPOCH: nat := 64
  const MAX_EPOCH: nat := 4294967295

  datatype Header = Header(epoch: nat, sealerId: Bytes, sequence: nat)

  /** Reading a frame's header, and opening a frame with the sealer key a call key derives. */
  datatype Media = Media(
    read: Bytes -> Option<Header>,
    open: (Bytes, Header, string, Bytes) -> Option<Bytes>)

  /** An epoch object: the epoch and call key it was added for, and the windows of its sealers. */
  datatype Held = Held(epoch: nat, callKey: Bytes, sealers: map<Bytes, Window>)

  /**
   * A call of `open` in flight: the epoch object it found, whether it found the sealer there or
   * derives one with a window of its own, and whether that window has admitted the sequence.
   */
  datatype Flight = Flight(held: nat, header: Header, track: string, frame: Bytes, known: bool, admitted: bool)

  datatype Delivery = Delivery(header: Header, track: string, frame: Bytes, plaintext: Bytes)

  datatype Opener = Opener(
    objects: seq<Held>,
    epochs: map<nat, nat>,
    latestEpoch: int,
    opens: map<nat, Flight>,
    imports: map<nat, nat>,
    delivered: seq<Delivery>)

  const NEW_OPENER := Opener([], map[], -1, map[], map[], [])

  /**
   * The steps. `AddKey` and `Open` start a call under an unused token; `Imported`, `Derived` and
   * `Decrypted` resume it, with whether the import or derivation it awaited succeeded.
   */
  datatype Event =
    | AddKey(token: nat, isKey: bool, callKey: Bytes, epoch: int)
    | Imported(token: nat, ok: bool)
    | Open(token: nat, frame: Bytes, track: string)
    | Derived(token: nat, ok: bool)
    | Decrypted(token: nat)

  // ----- the steps ---------------------------------------------------------------------------

  ghost predicate IsLeast(epoch: nat, epochs: set<nat>) {
    epoch in epochs && forall e :: e in epochs ==> epoch <= e
  }

  ghost predicate IsGreatest(epoch: nat, epochs: set<nat>) {
    epoch in epochs && forall e :: e in epochs ==> e <= epoch
  }

  lemma {:induction false} LeastExists(epochs: set<nat>) returns (least: nat)
    requires epochs != {}
    ensures IsLeast(least, epochs)
    decreases epochs
  {
    var e :| e in epochs;
    least := e;
    if epochs != {e} {
      var other := LeastExists(epochs - {e});
      least := if other < e then other else e;
      assert forall x :: x in epochs ==> x == e || x in epochs - {e};
    } else {
      assert forall x :: x in epochs ==> x == e;
    }
  }

  ghost function Least(epochs: set<nat>): (least: nat)
    requires epochs != {}
    ensures IsLeast(least, epochs)
  {
    assert exists e :: IsLeast(e, epochs) by {
      var e := LeastExists(epochs);
    }
    var e :| IsLeast(e, epochs);
    e
  }

  ghost function Begun(o: Opener, token: nat, isKey: bool, callKey: Bytes, epoch: int): Opener {
    if token in o.imports || !isKey || epoch < 0 || epoch > MAX_EPOCH || epoch <= o.latestEpoch then o
    else
      var epochs := o.epochs[epoch as nat := |o.objects|];
      o.(objects := o.objects + [Held(epoch, callKey, map[])],
         latestEpoch := epoch,
         epochs := if |epochs| > MAX_EPOCHS then epochs - {Least(epochs.Keys)} else epochs,
         imports := o.imports[token := epoch])
  }

  function Landed(o: Opener, token: nat, ok: bool): Opener {
    if token !in o.imports then o
    else o.(imports := o.imports - {token},
            epochs := if ok then o.epochs else o.epochs - {o.imports[token]})
  }

  function Started(media: Media, o: Opener, token: nat, frame: Bytes, track: string): Opener {
    if token in o.opens || media.read(frame).None? then o
    else
      var header := media.read(frame).value;
      if header.epoch !in o.epochs || o.epochs[header.epoch] >= |o.objects| then o
      else
        var held := o.epochs[header.epoch];
        var known := header.sealerId in o.objects[held].sealers;
        if !known && |o.objects[held].sealers| >= MAX_SEALERS_PER_EPOCH then o
        else o.(opens := o.opens[token := Flight(held, header, track, frame, known, false)])
  }

  /** The window a call in flight holds: the retained one, or its own, which nothing else uses. */
  function WindowOf(o: Opener, flight: Flight): Window {
    if flight.known && flight.held < |o.objects| && flight.header.sealerId in o.objects[flight.held].sealers
    then o.objects[flight.held].sealers[flight.header.sealerId]
    else EMPTY
  }

  function Checked(o: Opener, token: nat, ok: bool): Opener {
    if token !in o.opens || o.opens[token].admitted then o
    else
      var flight := o.opens[token];
      if (flight.known || ok) && WindowOf(o, flight).Admits(flight.header.sequence)
      then o.(opens := o.opens[token := flight.(admitted := true)])
      else o.(opens := o.opens - {token})
  }

  /** The epoch object once it retains the sealer and accepts the sequence; none when it refuses. */
  function Retained(held: Held, sealerId: Bytes, sequence: nat): Option<Held> {
    if sealerId in held.sealers then
      if held.sealers[sealerId].Admits(sequence)
      then Some(held.(sealers := held.sealers[sealerId := held.sealers[sealerId].Accept(sequence)]))
      else None
    else if |held.sealers| >= MAX_SEALERS_PER_EPOCH then None
    else Some(held.(sealers := held.sealers[sealerId := EMPTY.Accept(sequence)]))
  }

  function DropBefore(epochs: map<nat, nat>, epoch: nat): map<nat, nat> {
    map e | e in epochs && e >= epoch :: epochs[e]
  }

  /** What a call in flight leaves with what it decrypted, once its token is gone. */
  ghost function Delivered(o: Opener, flight: Flight, plaintext: Option<Bytes>): Opener
    requires flight.held < |o.objects|
  {
    var epoch := flight.header.epoch;
    if plaintext.None? || epoch !in o.epochs || o.epochs[epoch] != flight.held then o
    else
      match Retained(o.objects[flight.held], flight.header.sealerId, flight.header.sequence)
      case None => o
      case Some(retained) =>
        o.(objects := o.objects[flight.held := retained],
           epochs := if IsGreatest(epoch, o.epochs.Keys) then DropBefore(o.epochs, epoch) else o.epochs,
           delivered := o.delivered + [Delivery(flight.header, flight.track, flight.frame, plaintext.value)])
  }

  ghost function Finished(media: Media, o: Opener, token: nat): Opener {
    if token !in o.opens || !o.opens[token].admitted || o.opens[token].held >= |o.objects| then o
    else
      var flight := o.opens[token];
      Delivered(o.(opens := o.opens - {token}), flight,
                media.open(o.objects[flight.held].callKey, flight.header, flight.track, flight.frame))
  }

  ghost function Step(media: Media, o: Opener, event: Event): Opener {
    match event
    case AddKey(token, isKey, callKey, epoch) => Begun(o, token, isKey, callKey, epoch)
    case Imported(token, ok) => Landed(o, token, ok)
    case Open(token, frame, track) => Started(media, o, token, frame, track)
    case Derived(token, ok) => Checked(o, token, ok)
    case Decrypted(token) => Finished(media, o, token)
  }

  ghost function Run(media: Media, o: Opener, events: seq<Event>): Opener
    decreases |events|
  {
    if events == [] then o else Run(media, Step(media, o, events[0]), events[1..])
  }

  lemma {:induction false} RunOn(media: Media, o: Opener, events: seq<Event>, event: Event)
    ensures Run(media, o, events + [event]) == Step(media, Run(media, o, events), event)
    decreases |events|
  {
    if events != [] {
      assert (events + [event])[1..] == events[1..] + [event];
      RunOn(media, Step(media, o, events[0]), events[1..], event);
    } else {
      assert Run(media, Step(media, o, event), [event][1..]) == Step(media, o, event);
    }
  }

  // ----- what every interleaving keeps -------------------------------------------------------

  /** Epoch objects are made for ever later epochs, so an epoch names at most one. */
  ghost predicate ObjectsAscend(o: Opener) {
    && (forall r :: 0 <= r < |o.objects| ==> o.objects[r].epoch <= o.latestEpoch)
    && (forall r, s :: 0 <= r < s < |o.objects| ==> o.objects[r].epoch < o.objects[s].epoch)
  }

  /** At most two epochs are held, each naming the object made for it. */
  ghost predicate EpochsHeld(o: Opener) {
    && |o.epochs| <= MAX_EPOCHS
    && forall e :: e in o.epochs ==> o.epochs[e] < |o.objects| && o.objects[o.epochs[e]].epoch == e
  }

  /** At most 64 sealers an epoch, each with a window that accepted something. */
  ghost predicate SealersHeld(o: Opener) {
    forall r :: 0 <= r < |o.objects| ==>
      && |o.objects[r].sealers| <= MAX_SEALERS_PER_EPOCH
      && forall s :: s in o.objects[r].sealers ==>
           o.objects[r].sealers[s].WellFormed() && o.objects[r].sealers[s].accepted != {}
  }

  ghost predicate FlightsHold(media: Media, o: Opener) {
    forall t :: t in o.opens ==>
      var flight := o.opens[t];
      && flight.held < |o.objects|
      && o.objects[flight.held].epoch == flight.header.epoch
      && media.read(flight.frame) == Some(flight.header)
      && (flight.known ==> flight.header.sealerId in o.objects[flight.held].sealers)
  }

  ghost predicate ImportsHold(o: Opener) {
    forall t :: t in o.imports ==> o.imports[t] <= o.latestEpoch
  }

  ghost predicate WasDelivered(o: Opener, header: Header) {
    exists i :: 0 <= i < |o.delivered| && o.delivered[i].header == header
  }

  ghost predicate TellsAt(o: Opener, r: nat, sealerId: Bytes, sequence: nat)
    requires r < |o.objects|
  {
    var held := o.objects[r];
    sealerId in held.sealers && sequence in held.sealers[sealerId].accepted
    <==> WasDelivered(o, Header(held.epoch, sealerId, sequence))
  }

  /** The windows hold exactly the sequences delivered. */
  ghost predicate WindowsTellDeliveries(o: Opener) {
    forall r, s, q: nat :: 0 <= r < |o.objects| ==> TellsAt(o, r, s, q)
  }

  ghost predicate NothingTwice(o: Opener) {
    forall i, j :: 0 <= i < j < |o.delivered| ==> o.delivered[i].header != o.delivered[j].header
  }

  /** Epochs of deliveries never decrease, and every epoch held is as late as the last. */
  ghost predicate DeliveriesAscend(o: Opener) {
    && (forall i, j :: 0 <= i < j < |o.delivered| ==> o.delivered[i].header.epoch <= o.delivered[j].header.epoch)
    && (forall i, e :: 0 <= i < |o.delivered| && e in o.epochs ==> o.delivered[i].header.epoch <= e)
  }

  /** What was delivered opened under the key added for its epoch, from a frame with that header. */
  ghost predicate Genuine(media: Media, o: Opener, d: Delivery) {
    && media.read(d.frame) == Some(d.header)
    && exists r :: 0 <= r < |o.objects|
                   && o.objects[r].epoch == d.header.epoch
                   && media.open(o.objects[r].callKey, d.header, d.track, d.frame) == Some(d.plaintext)
  }

  ghost predicate DeliveriesGenuine(media: Media, o: Opener) {
    forall i :: 0 <= i < |o.delivered| ==> Genuine(media, o, o.delivered[i])
  }

  ghost predicate Inv(media: Media, o: Opener) {
    && ObjectsAscend(o) && EpochsHeld(o) && SealersHeld(o)
    && FlightsHold(media, o) && ImportsHold(o)
    && WindowsTellDeliveries(o) && NothingTwice(o) && DeliveriesAscend(o) && DeliveriesGenuine(media, o)
  }

  // ----- adding a key ------------------------------------------------------------------------

  lemma {:induction false} EpochsBounded(o: Opener, epochs: map<nat, nat>, epoch: nat)
    requires |o.epochs| <= MAX_EPOCHS && epoch !in o.epochs
    requires epochs == o.epochs[epoch := |o.objects|]
    ensures |epochs| == |o.epochs| + 1
    ensures |epochs| > MAX_EPOCHS ==> |epochs - {Least(epochs.Keys)}| == MAX_EPOCHS
  {
  }

  lemma {:induction false} KeysCount<V>(m: map<nat, V>)
    ensures |m| == |m.Keys|
  {
  }

  /** A new epoch object, for an epoch later than all, held with some of those held so far. */
  ghost predicate Opened(o: Opener, o': Opener, callKey: Bytes, epoch: nat, token: nat) {
    && epoch > o.latestEpoch
    && o'.objects == o.objects + [Held(epoch, callKey, map[])]
    && o'.latestEpoch == epoch
    && |o'.epochs| <= MAX_EPOCHS
    && (forall e :: e in o'.epochs ==> if e == epoch then o'.epochs[e] == |o.objects|
                                       else e in o.epochs && o'.epochs[e] == o.epochs[e])
    && o'.imports == o.imports[token := epoch]
    && o'.opens == o.opens && o'.delivered == o.delivered
  }

  lemma {:induction false} BegunOpens(media: Media, o: Opener, token: nat, isKey: bool, callKey: Bytes, epoch: int)
    requires ObjectsAscend(o) && EpochsHeld(o)
    ensures var o' := Begun(o, token, isKey, callKey, epoch);
            o' == o || (epoch >= 0 && Opened(o, o', callKey, epoch, token))
  {
    var o' := Begun(o, token, isKey, callKey, epoch);
    if o' != o {
      assert forall e :: e in o.epochs ==> e <= o.latestEpoch;
      EpochsBounded(o, o.epochs[epoch as nat := |o.objects|], epoch);
    }
  }

  lemma {:induction false} OpenedHeld(media: Media, o: Opener, o': Opener, callKey: Bytes, epoch: nat, token: nat)
    requires ObjectsAscend(o) && EpochsHeld(o) && SealersHeld(o) && FlightsHold(media, o) && ImportsHold(o)
    requires Opened(o, o', callKey, epoch, token)
    ensures ObjectsAscend(o') && EpochsHeld(o') && SealersHeld(o') && FlightsHold(media, o') && ImportsHold(o')
  {
    FlightsOutlast(media, o, o');
    OpenedObjects(o, o', callKey, epoch, token);
  }

  lemma {:induction false} OpenedObjects(o: Opener, o': Opener, callKey: Bytes, epoch: nat, token: nat)
    requires ObjectsAscend(o) && EpochsHeld(o) && SealersHeld(o)
    requires Opened(o, o', callKey, epoch, token)
    ensures ObjectsAscend(o') && EpochsHeld(o') && SealersHeld(o')
  {
    assert forall r :: 0 <= r < |o.objects| ==> o'.objects[r] == o.objects[r];
  }

  lemma {:induction false} OpenedTold(media: Media, o: Opener, o': Opener, callKey: Bytes, epoch: nat, token: nat)
    requires ObjectsAscend(o) && WindowsTellDeliveries(o) && DeliveriesAscend(o) && DeliveriesGenuine(media, o)
    requires Opened(o, o', callKey, epoch, token)
    ensures WindowsTellDeliveries(o') && DeliveriesAscend(o') && DeliveriesGenuine(media, o')
  {
    DeliveredHaveObjects(media, o);
    GenuineSurvives(media, o, o');
    forall r, s, q: nat | 0 <= r < |o'.objects|
      ensures TellsAt(o', r, s, q)
    {
      var header := Header(o'.objects[r].epoch, s, q);
      assert WasDelivered(o', header) == WasDelivered(o, header);
      if r < |o.objects| {
        assert o'.objects[r] == o.objects[r] && TellsAt(o, r, s, q);
      } else {
        assert header.epoch > o.latestEpoch;
      }
    }
  }

  lemma {:induction false} BegunKeepsInv(media: Media, o: Opener, token: nat, isKey: bool, callKey: Bytes, epoch: int)
    requires Inv(media, o)
    ensures Inv(media, Begun(o, token, isKey, callKey, epoch))
  {
    var o' := Begun(o, token, isKey, callKey, epoch);
    BegunOpens(media, o, token, isKey, callKey, epoch);
    if o' != o {
      OpenedHeld(media, o, o', callKey, epoch, token);
      OpenedTold(media, o, o', callKey, epoch, token);
    }
  }

  lemma {:induction false} DeliveredHaveObjects(media: Media, o: Opener)
    requires ObjectsAscend(o) && DeliveriesGenuine(media, o)
    ensures forall i :: 0 <= i < |o.delivered| ==> o.delivered[i].header.epoch <= o.latestEpoch
  {
  }

  /** Epoch objects keep their place, epoch and key, so what was genuine stays so. */
  ghost predicate Outlasts(o: Opener, o': Opener) {
    && |o.objects| <= |o'.objects|
    && forall r :: 0 <= r < |o.objects| ==>
         o'.objects[r].epoch == o.objects[r].epoch && o'.objects[r].callKey == o.objects[r].callKey
  }

  lemma {:induction false} GenuineSurvives(media: Media, o: Opener, o': Opener)
    requires DeliveriesGenuine(media, o) && Outlasts(o, o')
    ensures forall i :: 0 <= i < |o.delivered| ==> Genuine(media, o', o.delivered[i])
  {
  }

  // ----- steps that only move calls, or drop an epoch ----------------------------------------

  /** Epochs may go and calls may come and go: nothing else is at stake. */
  lemma {:induction false} FewerEpochsKeep(media: Media, o: Opener, o': Opener)
    requires Inv(media, o)
    requires o' == o.(epochs := o'.epochs, opens := o'.opens, imports := o'.imports)
    requires o'.epochs.Keys <= o.epochs.Keys && forall e :: e in o'.epochs ==> o'.epochs[e] == o.epochs[e]
    requires FlightsHold(media, o') && ImportsHold(o')
    ensures Inv(media, o')
  {
    assert ObjectsAscend(o') && EpochsHeld(o') by {
      EpochsOutlast(o, o');
    }
    assert NothingTwice(o') && DeliveriesAscend(o') by {
      FewerEpochsInOrder(o, o');
    }
    assert WindowsTellDeliveries(o') && SealersHeld(o') by {
      SameWindowsTell(o, o');
    }
    SameAreGenuine(media, o, o');
  }

  lemma {:induction false} FewerEpochsInOrder(o: Opener, o': Opener)
    requires NothingTwice(o) && DeliveriesAscend(o)
    requires o'.delivered == o.delivered && o'.epochs.Keys <= o.epochs.Keys
    ensures NothingTwice(o') && DeliveriesAscend(o')
  {
  }

  lemma {:induction false} SameWindowsTell(o: Opener, o': Opener)
    requires WindowsTellDeliveries(o) && SealersHeld(o)
    requires o'.objects == o.objects && o'.delivered == o.delivered
    ensures WindowsTellDeliveries(o') && SealersHeld(o')
  {
    forall r, s, q: nat | 0 <= r < |o'.objects|
      ensures TellsAt(o', r, s, q)
    {
      assert TellsAt(o, r, s, q);
    }
  }

  lemma {:induction false} SameAreGenuine(media: Media, o: Opener, o': Opener)
    requires DeliveriesGenuine(media, o)
    requires o'.objects == o.objects && o'.delivered == o.delivered
    ensures DeliveriesGenuine(media, o')
  {
  }

  // ----- finishing an open -------------------------------------------------------------------

  /** What a delivery needs: the object is held for the header's epoch and the window admits the sequence. */
  lemma {:induction false} AdmittedNeverDelivered(media: Media, o: Opener, header: Header)
    requires Inv(media, o) && header.epoch in o.epochs
    requires var held := o.objects[o.epochs[header.epoch]];
             header.sealerId in held.sealers ==> held.sealers[header.sealerId].Admits(header.sequence)
    ensures !WasDelivered(o, header)
  {
    var r := o.epochs[header.epoch];
    var held := o.objects[r];
    assert TellsAt(o, r, header.sealerId, header.sequence);
  }

  lemma {:induction false} RetainedKeeps(held: Held, sealerId: Bytes, sequence: nat)
    requires |held.sealers| <= MAX_SEALERS_PER_EPOCH
    requires forall s :: s in held.sealers ==> held.sealers[s].WellFormed() && held.sealers[s].accepted != {}
    requires Retained(held, sealerId, sequence).Some?
    ensures var kept := Retained(held, sealerId, sequence).value;
            && kept.epoch == held.epoch && kept.callKey == held.callKey
            && |kept.sealers| <= MAX_SEALERS_PER_EPOCH
            && held.sealers.Keys <= kept.sealers.Keys
            && (forall s :: s in kept.sealers ==> kept.sealers[s].WellFormed() && kept.sealers[s].accepted != {})
            && forall s, q: nat :: (s in kept.sealers && q in kept.sealers[s].accepted
                               <==> || (s in held.sealers && q in held.sealers[s].accepted)
                                    || (s == sealerId && q == sequence))
  {
    var kept := Retained(held, sealerId, sequence).value;
    var before := if sealerId in held.sealers then held.sealers[sealerId] else EMPTY;
    RetainedCount(held, sealerId, sequence, kept);
    AcceptedByOne(held.sealers, kept.sealers, sealerId, sequence, before);
  }

  lemma {:induction false} AcceptedByOne(sealers: map<Bytes, Window>, kept: map<Bytes, Window>, sealerId: Bytes,
                                         sequence: nat, before: Window)
    requires before == if sealerId in sealers then sealers[sealerId] else EMPTY
    requires kept == sealers[sealerId := before.Accept(sequence)]
    ensures before.Accept(sequence).accepted != {}
    ensures forall s, q: nat :: (s in kept && q in kept[s].accepted
                            <==> (s in sealers && q in sealers[s].accepted) || (s == sealerId && q == sequence))
  {
  }

  lemma {:induction false} RetainedCount(held: Held, sealerId: Bytes, sequence: nat, kept: Held)
    requires |held.sealers| <= MAX_SEALERS_PER_EPOCH
    requires Retained(held, sealerId, sequence) == Some(kept)
    ensures |kept.sealers| <= MAX_SEALERS_PER_EPOCH
  {
  }

  /** A frame delivered: its epoch object retains the sealer, older epochs go if it is the latest held. */
  ghost predicate Delivers(media: Media, o: Opener, o': Opener, r: nat, kept: Held, d: Delivery) {
    && d.header.epoch in o.epochs && o.epochs[d.header.epoch] == r && r < |o.objects|
    && Retained(o.objects[r], d.header.sealerId, d.header.sequence) == Some(kept)
    && media.read(d.frame) == Some(d.header)
    && media.open(o.objects[r].callKey, d.header, d.track, d.frame) == Some(d.plaintext)
    && o'.objects == o.objects[r := kept]
    && o'.latestEpoch == o.latestEpoch && o'.imports == o.imports
    && o'.opens.Keys <= o.opens.Keys && (forall t :: t in o'.opens ==> o'.opens[t] == o.opens[t])
    && o'.epochs == (if IsGreatest(d.header.epoch, o.epochs.Keys)
                     then DropBefore(o.epochs, d.header.epoch) else o.epochs)
    && o'.delivered == o.delivered + [d]
  }

  lemma {:induction false} DeliversObjects(o: Opener, o': Opener, r: nat, kept: Held, sealerId: Bytes, sequence: nat)
    requires ObjectsAscend(o) && SealersHeld(o) && r < |o.objects|
    requires Retained(o.objects[r], sealerId, sequence) == Some(kept)
    requires o'.objects == o.objects[r := kept] && o'.latestEpoch == o.latestEpoch
    ensures ObjectsAscend(o') && SealersHeld(o') && Outlasts(o, o')
    ensures forall s :: 0 <= s < |o.objects| ==> o.objects[s].sealers.Keys <= o'.objects[s].sealers.Keys
  {
    RetainedKeeps(o.objects[r], sealerId, sequence);
    assert forall s :: 0 <= s < |o'.objects| ==> o'.objects[s] == if s == r then kept else o.objects[s];
  }

  lemma {:induction false} DeliversHeld(media: Media, o: Opener, o': Opener, r: nat, kept: Held, d: Delivery)
    requires ObjectsAscend(o) && EpochsHeld(o) && SealersHeld(o) && FlightsHold(media, o) && ImportsHold(o)
    requires Delivers(media, o, o', r, kept, d)
    ensures ObjectsAscend(o') && EpochsHeld(o') && SealersHeld(o') && FlightsHold(media, o') && ImportsHold(o')
    ensures Outlasts(o, o')
  {
    DeliversObjects(o, o', r, kept, d.header.sealerId, d.header.sequence);
    EpochsOutlast(o, o');
    FlightsOutlast(media, o, o');
  }

  lemma {:induction false} EpochsOutlast(o: Opener, o': Opener)
    requires EpochsHeld(o) && Outlasts(o, o')
    requires o'.epochs.Keys <= o.epochs.Keys && forall e :: e in o'.epochs ==> o'.epochs[e] == o.epochs[e]
    ensures EpochsHeld(o')
  {
    SubsetFits(o'.epochs.Keys, o.epochs.Keys);
    KeysCount(o.epochs);
    KeysCount(o'.epochs);
  }

  lemma {:induction false} FlightsOutlast(media: Media, o: Opener, o': Opener)
    requires FlightsHold(media, o) && Outlasts(o, o')
    requires forall s :: 0 <= s < |o.objects| ==> o.objects[s].sealers.Keys <= o'.objects[s].sealers.Keys
    requires o'.opens.Keys <= o.opens.Keys && forall t :: t in o'.opens ==> o'.opens[t] == o.opens[t]
    ensures FlightsHold(media, o')
  {
  }

  lemma {:induction false} DeliversWindows(media: Media, o: Opener, o': Opener, r: nat, kept: Held, d: Delivery)
    requires ObjectsAscend(o) && EpochsHeld(o) && SealersHeld(o) && WindowsTellDeliveries(o)
    requires Delivers(media, o, o', r, kept, d)
    ensures WindowsTellDeliveries(o')
  {
    RetainedKeeps(o.objects[r], d.header.sealerId, d.header.sequence);
    forall k, s, q: nat | 0 <= k < |o'.objects|
      ensures TellsAt(o', k, s, q)
    {
      WindowTells(o, o', r, kept, d, k, s, q);
    }
  }

  lemma {:induction false} WindowTells(o: Opener, o': Opener, r: nat, kept: Held, d: Delivery, k: nat, s: Bytes, q: nat)
    requires ObjectsAscend(o) && WindowsTellDeliveries(o) && r < |o.objects| && k < |o.objects|
    requires o.objects[r].epoch == d.header.epoch == kept.epoch
    requires o'.objects == o.objects[r := kept] && o'.delivered == o.delivered + [d]
    requires (s in kept.sealers && q in kept.sealers[s].accepted
              <==> (s in o.objects[r].sealers && q in o.objects[r].sealers[s].accepted)
                   || (s == d.header.sealerId && q == d.header.sequence))
    ensures TellsAt(o', k, s, q)
  {
    var header := Header(o.objects[k].epoch, s, q);
    DeliveredOneMore(o, o', d, header);
    assert TellsAt(o, k, s, q);
    assert k != r ==> header != d.header && o'.objects[k] == o.objects[k];
  }

  lemma {:induction false} DeliveredOneMore(o: Opener, o': Opener, d: Delivery, header: Header)
    requires o'.delivered == o.delivered + [d]
    ensures WasDelivered(o', header) <==> WasDelivered(o, header) || header == d.header
  {
    if WasDelivered(o, header) {
      var i :| 0 <= i < |o.delivered| && o.delivered[i].header == header;
      assert o'.delivered[i].header == header;
    } else if header == d.header {
      assert o'.delivered[|o.delivered|].header == header;
    }
  }

  /** With at most two epochs held, one that is not the latest is the earliest. */
  lemma {:induction false} HeldAtOrPast(epochs: map<nat, nat>, epoch: nat, e: nat)
    requires |epochs| <= 2 && epoch in epochs && e in epochs
    requires !IsGreatest(epoch, epochs.Keys)
    ensures epoch <= e
  {
    var later :| later in epochs.Keys && later > epoch;
    KeysCount(epochs);
    assert e < epoch ==> |{e, epoch, later}| == 3;
    SubsetFits({e, epoch, later}, epochs.Keys);
  }

  lemma {:induction false} DeliversOnce(o: Opener, o': Opener, d: Delivery)
    requires NothingTwice(o) && !WasDelivered(o, d.header) && o'.delivered == o.delivered + [d]
    ensures NothingTwice(o')
  {
  }

  lemma {:induction false} DeliversInOrder(media: Media, o: Opener, o': Opener, r: nat, kept: Held, d: Delivery)
    requires EpochsHeld(o) && DeliveriesAscend(o) && Delivers(media, o, o', r, kept, d)
    ensures DeliveriesAscend(o')
  {
    var n := |o.delivered|;
    assert forall i :: 0 <= i < n ==> o'.delivered[i] == o.delivered[i];
    forall i, e | 0 <= i < |o'.delivered| && e in o'.epochs
      ensures o'.delivered[i].header.epoch <= e
    {
      if i == n && !IsGreatest(d.header.epoch, o.epochs.Keys) {
        HeldAtOrPast(o.epochs, d.header.epoch, e);
      }
    }
  }

  lemma {:induction false} DeliversGenuinely(media: Media, o: Opener, o': Opener, r: nat, kept: Held, d: Delivery)
    requires DeliveriesGenuine(media, o) && EpochsHeld(o) && Outlasts(o, o')
    requires Delivers(media, o, o', r, kept, d)
    ensures DeliveriesGenuine(media, o')
  {
  }

  lemma {:induction false} DeliversKeepsInv(media: Media, o: Opener, o': Opener, r: nat, kept: Held, d: Delivery)
    requires Inv(media, o) && Delivers(media, o, o', r, kept, d)
    ensures Inv(media, o')
  {
    DeliversHeld(media, o, o', r, kept, d);
    DeliversWindows(media, o, o', r, kept, d);
    AdmittedNeverDelivered(media, o, d.header);
    DeliversOnce(o, o', d);
    DeliversInOrder(media, o, o', r, kept, d);
    DeliversGenuinely(media, o, o', r, kept, d);
  }

  /** A finished open delivers, or only ends: a forged, late or repeated frame leaves no trace. */
  lemma {:induction false} FinishedDeliversOrEnds(media: Media, o: Opener, token: nat)
    requires FlightsHold(media, o) && EpochsHeld(o)
    ensures var o' := Finished(media, o, token);
            if o'.delivered == o.delivered
            then o' == o || o' == o.(opens := o.opens - {token})
            else
              && token in o.opens
              && var flight := o.opens[token];
                 && |o'.delivered| > 0
                 && var d := o'.delivered[|o'.delivered| - 1];
                    && d.header == flight.header && d.frame == flight.frame && d.track == flight.track
                    && flight.held < |o'.objects|
                    && Delivers(media, o, o', flight.held, o'.objects[flight.held], d)
    ensures token in o.opens && media.open(o.objects[o.opens[token].held].callKey, o.opens[token].header,
                                           o.opens[token].track, o.opens[token].frame).None?
            ==> var o' := Finished(media, o, token);
                o' == o || o' == o.(opens := o.opens - {token})
  {
  }

  lemma {:induction false} LandedKeepsInv(media: Media, o: Opener, token: nat, ok: bool)
    requires Inv(media, o)
    ensures Inv(media, Landed(o, token, ok))
  {
    var o' := Landed(o, token, ok);
    assert FlightsHold(media, o') && ImportsHold(o');
    FewerEpochsKeep(media, o, o');
  }

  lemma {:induction false} CheckedMoves(media: Media, o: Opener, token: nat, ok: bool)
    requires FlightsHold(media, o)
    ensures var o' := Checked(o, token, ok);
            o' == o.(opens := o'.opens) && FlightsHold(media, o')
  {
  }

  lemma {:induction false} CheckedKeepsInv(media: Media, o: Opener, token: nat, ok: bool)
    requires Inv(media, o)
    ensures Inv(media, Checked(o, token, ok))
  {
    CheckedMoves(media, o, token, ok);
    FewerEpochsKeep(media, o, Checked(o, token, ok));
  }

  lemma {:induction false} StartedKeepsInv(media: Media, o: Opener, token: nat, frame: Bytes, track: string)
    requires Inv(media, o)
    ensures Inv(media, Started(media, o, token, frame, track))
  {
    var o' := Started(media, o, token, frame, track);
    assert FlightsHold(media, o');
    FewerEpochsKeep(media, o, o');
  }

  lemma {:induction false} FinishedKeepsInv(media: Media, o: Opener, token: nat)
    requires Inv(media, o)
    ensures Inv(media, Finished(media, o, token))
  {
    var o' := Finished(media, o, token);
    FinishedDeliversOrEnds(media, o, token);
    if o'.delivered == o.delivered {
      FewerEpochsKeep(media, o, o');
    } else {
      var r := o.opens[token].held;
      DeliversKeepsInv(media, o, o', r, o'.objects[r], o'.delivered[|o'.delivered| - 1]);
    }
  }

  lemma {:induction false} StepKeepsInv(media: Media, o: Opener, event: Event)
    requires Inv(media, o)
    ensures Inv(media, Step(media, o, event))
  {
    match event
    case AddKey(token, isKey, callKey, epoch) => BegunKeepsInv(media, o, token, isKey, callKey, epoch);
    case Imported(token, ok) => LandedKeepsInv(media, o, token, ok);
    case Open(token, frame, track) => StartedKeepsInv(media, o, token, frame, track);
    case Derived(token, ok) => CheckedKeepsInv(media, o, token, ok);
    case Decrypted(token) => FinishedKeepsInv(media, o, token);
  }

  /**
   * Exactly when an open that reaches its end delivers: the frame opens, the epoch object it
   * found is still the one held, and the sequence was not delivered, nor lies 1024 or more
   * below one delivered, for that sealer, which is known or finds a free place.
   */
  lemma {:induction false} DeliversExactlyTheNew(media: Media, o: Opener, token: nat)
    requires Inv(media, o) && token in o.opens && o.opens[token].admitted
    ensures var flight := o.opens[token];
            var header := flight.header;
            var held := o.objects[flight.held];
            Finished(media, o, token).delivered != o.delivered <==>
              && media.open(held.callKey, header, flight.track, flight.frame).Some?
              && header.epoch in o.epochs && o.epochs[header.epoch] == flight.held
              && !WasDelivered(o, header)
              && NoneFarAbove(o, header)
              && (header.sealerId in held.sealers || |held.sealers| < MAX_SEALERS_PER_EPOCH)
  {
    var flight := o.opens[token];
    AdmitsTheNew(o, flight.held, flight.header);
    FinishedDelivers(media, o, token);
  }

  ghost predicate NoneFarAbove(o: Opener, header: Header) {
    forall q: nat :: WasDelivered(o, Header(header.epoch, header.sealerId, q)) ==> q < header.sequence + SIZE
  }

  lemma {:induction false} FinishedDelivers(media: Media, o: Opener, token: nat)
    requires token in o.opens && o.opens[token].admitted && o.opens[token].held < |o.objects|
    ensures var flight := o.opens[token];
            var header := flight.header;
            var held := o.objects[flight.held];
            Finished(media, o, token).delivered != o.delivered <==>
              && media.open(held.callKey, header, flight.track, flight.frame).Some?
              && header.epoch in o.epochs && o.epochs[header.epoch] == flight.held
              && Retained(held, header.sealerId, header.sequence).Some?
  {
  }

  lemma {:induction false} AdmitsTheNew(o: Opener, r: nat, header: Header)
    requires SealersHeld(o) && WindowsTellDeliveries(o) && r < |o.objects| && o.objects[r].epoch == header.epoch
    ensures var held := o.objects[r];
            Retained(held, header.sealerId, header.sequence).Some? <==>
              && !WasDelivered(o, header) && NoneFarAbove(o, header)
              && (header.sealerId in held.sealers || |held.sealers| < MAX_SEALERS_PER_EPOCH)
  {
    assert TellsAt(o, r, header.sealerId, header.sequence);
    forall q: nat
      ensures TellsAt(o, r, header.sealerId, q)
    {
    }
    AdmitsWithin(o, r, header);
  }

  lemma {:induction false} AdmitsWithin(o: Opener, r: nat, header: Header)
    requires SealersHeld(o) && r < |o.objects| && o.objects[r].epoch == header.epoch
    requires forall q: nat :: TellsAt(o, r, header.sealerId, q)
    ensures NoneFarAbove(o, header)
            <==> header.sealerId in o.objects[r].sealers ==>
              o.objects[r].sealers[header.sealerId].highest < header.sequence + SIZE
  {
    var held := o.objects[r];
    forall q: nat
      ensures WasDelivered(o, Header(header.epoch, header.sealerId, q))
              <==> header.sealerId in held.sealers && q in held.sealers[header.sealerId].accepted
    {
      assert TellsAt(o, r, header.sealerId, q);
    }
  }

  /** Making room drops the least epoch, and only when there was no room. */
  lemma {:induction false} MakesRoom(epochs: map<nat, nat>, later: map<nat, nat>, epoch: nat, place: nat)
    requires |epochs| <= MAX_EPOCHS && (forall e :: e in epochs ==> e < epoch)
    requires later == epochs[epoch := place]
    ensures var held := if |later| > MAX_EPOCHS then later - {Least(later.Keys)} else later;
            && epoch in held && held[epoch] == place
            && |held| == (if |epochs| < MAX_EPOCHS then |epochs| + 1 else MAX_EPOCHS)
            && forall e :: e in epochs && e !in held ==> |epochs| == MAX_EPOCHS && forall f :: f in held ==> e < f
  {
    assert later.Keys == epochs.Keys + {epoch};
    KeysCount(epochs);
    KeysCount(later);
    if |later| > MAX_EPOCHS {
      var least := Least(later.Keys);
      assert epochs.Keys != {};
      var kept :| kept in epochs.Keys;
      assert least <= kept < epoch;
      KeysCount(later - {least});
      assert (later - {least}).Keys == later.Keys - {least};
    }
  }

  /**
   * Which keys are added, and what that leaves held: exactly the keys for an epoch past every
   * one before; the new epoch is held, and one before it goes only to make room and only if it
   * is the earliest held.
   */
  lemma {:induction false} AddsExactlyLaterKeys(o: Opener, token: nat, isKey: bool, callKey: Bytes, epoch: int)
    requires ObjectsAscend(o) && EpochsHeld(o)
    ensures var o' := Begun(o, token, isKey, callKey, epoch);
            if token !in o.imports && isKey && 0 <= epoch <= MAX_EPOCH && epoch > o.latestEpoch then
              && o'.latestEpoch == epoch && token in o'.imports
              && o'.objects == o.objects + [Held(epoch, callKey, map[])]
              && epoch in o'.epochs && o'.epochs[epoch] == |o.objects|
              && |o'.epochs| == (if |o.epochs| < MAX_EPOCHS then |o.epochs| + 1 else MAX_EPOCHS)
              && forall e :: e in o.epochs && e !in o'.epochs ==>
                   |o.epochs| == MAX_EPOCHS && forall f :: f in o'.epochs ==> e < f
            else o' == o
  {
    if token !in o.imports && isKey && 0 <= epoch <= MAX_EPOCH && epoch > o.latestEpoch {
      assert forall e :: e in o.epochs ==> e < epoch;
      MakesRoom(o.epochs, o.epochs[epoch as nat := |o.objects|], epoch, |o.objects|);
    }
  }

  /** Which calls go on to decrypt: with a known sealer, those of a new sequence; else all whose key was derived. */
  lemma {:induction false} ChecksExactlyTheNew(media: Media, o: Opener, token: nat, ok: bool)
    requires Inv(media, o) && token in o.opens && !o.opens[token].admitted
    ensures var flight := o.opens[token];
            token in Checked(o, token, ok).opens
            <==> if flight.known then !WasDelivered(o, flight.header) && NoneFarAbove(o, flight.header) else ok
  {
    var flight := o.opens[token];
    if flight.known {
      AdmitsTheNew(o, flight.held, flight.header);
    }
  }

  /** A call of `open` that starts holds the epoch object of its header, of a sealer known or with room. */
  lemma {:induction false} StartsExactly(media: Media, o: Opener, token: nat, frame: Bytes, track: string)
    requires EpochsHeld(o) && token !in o.opens
    ensures var started := Started(media, o, token, frame, track);
            && (token in started.opens <==>
                  && media.read(frame).Some?
                  && var header := media.read(frame).value;
                     && header.epoch in o.epochs
                     && var held := o.objects[o.epochs[header.epoch]];
                        header.sealerId in held.sealers || |held.sealers| < MAX_SEALERS_PER_EPOCH)
            && started == o.(opens := started.opens)
            && (token in started.opens ==>
                  var header := media.read(frame).value;
                  started.opens[token] == Flight(o.epochs[header.epoch], header, track, frame,
                                                 header.sealerId in o.objects[o.epochs[header.epoch]].sealers, false))
  {
  }

  /** A call started that nothing disturbs delivers exactly what opens and is new, of a sealer known or with room. */
  lemma {:induction false} StartedDeliversExactly(media: Media, o: Opener, token: nat)
    requires Inv(media, o) && token in o.opens && !o.opens[token].admitted
    ensures var flight := o.opens[token];
            var header := flight.header;
            var held := o.objects[flight.held];
            Finished(media, Checked(o, token, true), token).delivered != o.delivered <==>
              && media.open(held.callKey, header, flight.track, flight.frame).Some?
              && header.epoch in o.epochs && o.epochs[header.epoch] == flight.held
              && !WasDelivered(o, header) && NoneFarAbove(o, header)
              && (header.sealerId in held.sealers || |held.sealers| < MAX_SEALERS_PER_EPOCH)
  {
    var flight := o.opens[token];
    var checked := Checked(o, token, true);
    ChecksExactlyTheNew(media, o, token, true);
    CheckedMoves(media, o, token, true);
    CheckedKeepsInv(media, o, token, true);
    if token in checked.opens {
      assert checked.opens[token] == flight.(admitted := true);
      SameDeliveries(o, checked, flight.header);
      DeliversExactlyTheNew(media, checked, token);
    }
  }

  /** The three stretches of one call with nothing between them. */
  ghost function Undisturbed(media: Media, o: Opener, token: nat, frame: Bytes, track: string): Opener {
    Step(media, Step(media, Step(media, o, Open(token, frame, track)), Derived(token, true)), Decrypted(token))
  }

  /**
   * A whole call that nothing disturbs delivers exactly the frames it should: those of an epoch
   * held that open under its key, not delivered before nor 1024 or more below one delivered,
   * of a sealer that is known or finds room.
   */
  lemma {:induction false} UndisturbedDeliversExactly(media: Media, o: Opener, token: nat, frame: Bytes, track: string)
    requires Inv(media, o) && token !in o.opens
    ensures var end := Undisturbed(media, o, token, frame, track);
            end.delivered != o.delivered <==>
              && media.read(frame).Some?
              && var header := media.read(frame).value;
                 && header.epoch in o.epochs
                 && var held := o.objects[o.epochs[header.epoch]];
                    && media.open(held.callKey, header, track, frame).Some?
                    && !WasDelivered(o, header) && NoneFarAbove(o, header)
                    && (header.sealerId in held.sealers || |held.sealers| < MAX_SEALERS_PER_EPOCH)
  {
    var started := Started(media, o, token, frame, track);
    StartsExactly(media, o, token, frame, track);
    StartedKeepsInv(media, o, token, frame, track);
    if token in started.opens {
      SameDeliveries(o, started, started.opens[token].header);
      StartedDeliversExactly(media, started, token);
    }
  }

  lemma {:induction false} SameDeliveries(o: Opener, o': Opener, header: Header)
    requires o'.delivered == o.delivered
    ensures WasDelivered(o', header) == WasDelivered(o, header) && NoneFarAbove(o', header) == NoneFarAbove(o, header)
  {
    assert forall h :: WasDelivered(o', h) == WasDelivered(o, h);
  }

  /** Over every interleaving of any steps, in any order, with any outcomes. */
  lemma {:induction false} RunKeepsInv(media: Media, o: Opener, events: seq<Event>)
    requires Inv(media, o)
    ensures Inv(media, Run(media, o, events))
    decreases |events|
  {
    if events != [] {
      StepKeepsInv(media, o, events[0]);
      RunKeepsInv(media, Step(media, o, events[0]), events[1..]);
    }
  }

  /**
   * Over every interleaving of opens and added keys, from a new opener: nothing is delivered
   * twice, epochs of deliveries never decrease, everything delivered is genuine, at most 2
   * epochs and 64 sealers an epoch are held, and sealers and sequences are only spent on
   * frames delivered.
   */
  lemma {:induction false} EveryInterleavingIsSafe(media: Media, events: seq<Event>)
    ensures var o := Run(media, NEW_OPENER, events);
            && (forall i, j :: 0 <= i < j < |o.delivered| ==>
                  && o.delivered[i].header != o.delivered[j].header
                  && o.delivered[i].header.epoch <= o.delivered[j].header.epoch)
            && (forall i :: 0 <= i < |o.delivered| ==> Genuine(media, o, o.delivered[i]))
            && |o.epochs| <= MAX_EPOCHS
            && (forall e :: e in o.epochs ==>
                  && o.epochs[e] < |o.objects|
                  && var held := o.objects[o.epochs[e]];
                     && held.epoch == e
                     && |held.sealers| <= MAX_SEALERS_PER_EPOCH
                     && forall s :: s in held.sealers ==>
                          && held.sealers[s].accepted != {}
                          && forall q: nat :: q in held.sealers[s].accepted <==> WasDelivered(o, Header(e, s, q)))
  {
    RunKeepsInv(media, NEW_OPENER, events);
    HeldTells(media, Run(media, NEW_OPENER, events));
  }

  lemma {:induction false} HeldTells(media: Media, o: Opener)
    requires Inv(media, o)
    ensures forall e :: e in o.epochs ==>
              && o.epochs[e] < |o.objects|
              && var held := o.objects[o.epochs[e]];
                 && held.epoch == e
                 && |held.sealers| <= MAX_SEALERS_PER_EPOCH
                 && forall s :: s in held.sealers ==>
                      && held.sealers[s].accepted != {}
                      && forall q: nat :: q in held.sealers[s].accepted <==> WasDelivered(o, Header(e, s, q))
  {
    forall e, s, q: nat | e in o.epochs && s in o.objects[o.epochs[e]].sealers
      ensures q in o.objects[o.epochs[e]].sealers[s].accepted <==> WasDelivered(o, Header(e, s, q))
    {
      assert TellsAt(o, o.epochs[e], s, q);
    }
  }

  // ----- adding a key, from one end to the other ---------------------------------------------

  /** No event ends the import under this token. */
  ghost predicate StillImporting(token: nat, events: seq<Event>) {
    forall event :: event in events ==> !(event.Imported? && event.token == token)
  }

  /** Whatever happens meanwhile, the import under a token stays that of the epoch it was begun for. */
  lemma {:induction false} ImportWaits(media: Media, o: Opener, token: nat, events: seq<Event>)
    requires token in o.imports && StillImporting(token, events)
    ensures token in Run(media, o, events).imports && Run(media, o, events).imports[token] == o.imports[token]
    decreases |events|
  {
    if events != [] {
      assert events[0] in events;
      ImportWaits(media, Step(media, o, events[0]), token, events[1..]);
    }
  }

  /**
   * Once a key is added, and whatever happens while it is imported, a good import changes
   * nothing but that it is over, and a failed one also ends the epoch it was added for, and no other.
   */
  lemma {:induction false} ImportEndsItsEpoch(media: Media, o: Opener, token: nat, callKey: Bytes, epoch: nat,
                                              meanwhile: seq<Event>, ok: bool)
    requires token !in o.imports && epoch <= MAX_EPOCH && epoch > o.latestEpoch
    requires StillImporting(token, meanwhile)
    ensures var before := Run(media, Step(media, o, AddKey(token, true, callKey, epoch)), meanwhile);
            var after := Step(media, before, Imported(token, ok));
            && token in before.imports && after.imports == before.imports - {token}
            && after.objects == before.objects && after.opens == before.opens
            && after.latestEpoch == before.latestEpoch && after.delivered == before.delivered
            && (ok ==> after.epochs == before.epochs)
            && (!ok ==> after.epochs == before.epochs - {epoch})
  {
    ImportWaits(media, Step(media, o, AddKey(token, true, callKey, epoch)), token, meanwhile);
  }

  /**
   * A key that is added and imported opens: the first frame of its epoch that opens under it is
   * delivered, as the plaintext it opens to.
   */
  lemma {:induction false} AddedKeyDelivers(media: Media, o: Opener, token: nat, callKey: Bytes, header: Header,
                                            openToken: nat, frame: Bytes, track: string, plaintext: Bytes)
    requires Inv(media, o)
    requires token !in o.imports && header.epoch <= MAX_EPOCH && header.epoch > o.latestEpoch
    requires openToken !in o.opens && media.read(frame) == Some(header)
    requires media.open(callKey, header, track, frame) == Some(plaintext)
    ensures var added := Step(media, Step(media, o, AddKey(token, true, callKey, header.epoch)), Imported(token, true));
            Undisturbed(media, added, openToken, frame, track).delivered
            == o.delivered + [Delivery(header, track, frame, plaintext)]
  {
    var begun := Begun(o, token, true, callKey, header.epoch);
    var added := Landed(begun, token, true);
    AddsExactlyLaterKeys(o, token, true, callKey, header.epoch);
    BegunKeepsInv(media, o, token, true, callKey, header.epoch);
    LandedKeepsInv(media, begun, token, true);
    DeliveredHaveObjects(media, o);
    assert added.objects[added.epochs[header.epoch]] == Held(header.epoch, callKey, map[]);
    NewEpochUndelivered(media, o, added, header);
    UndisturbedDeliversExactly(media, added, openToken, frame, track);
    UndisturbedDelivery(media, added, openToken, frame, track);
  }

  lemma {:induction false} NewEpochUndelivered(media: Media, o: Opener, added: Opener, header: Header)
    requires Inv(media, o) && added.delivered == o.delivered && header.epoch > o.latestEpoch
    ensures !WasDelivered(added, header) && NoneFarAbove(added, header)
  {
    DeliveredHaveObjects(media, o);
  }

  /** What is delivered is the frame of the call, opened under the key of the object it found. */
  lemma {:induction false} DeliveredIsOwn(media: Media, o: Opener, token: nat)
    requires Finished(media, o, token).delivered != o.delivered
    ensures token in o.opens && o.opens[token].held < |o.objects|
    ensures var flight := o.opens[token];
            var plaintext := media.open(o.objects[flight.held].callKey, flight.header, flight.track, flight.frame);
            && plaintext.Some? && flight.header.epoch in o.epochs
            && Finished(media, o, token).delivered
               == o.delivered + [Delivery(flight.header, flight.track, flight.frame, plaintext.value)]
  {
  }

  lemma {:induction false} CheckedKeepsFlight(media: Media, o: Opener, token: nat, ok: bool)
    requires token in Checked(o, token, ok).opens
    ensures token in o.opens
    ensures Checked(o, token, ok).opens[token].(admitted := true) == o.opens[token].(admitted := true)
    ensures Checked(o, token, ok) == o.(opens := Checked(o, token, ok).opens)
  {
  }

  /** What an undisturbed call delivers is its own frame, opened under the key held. */
  lemma {:induction false} UndisturbedDelivery(media: Media, o: Opener, token: nat, frame: Bytes, track: string)
    requires EpochsHeld(o) && token !in o.opens
    requires Undisturbed(media, o, token, frame, track).delivered != o.delivered
    ensures media.read(frame).Some? && media.read(frame).value.epoch in o.epochs
    ensures var header := media.read(frame).value;
            var plaintext := media.open(o.objects[o.epochs[header.epoch]].callKey, header, track, frame);
            && plaintext.Some?
            && Undisturbed(media, o, token, frame, track).delivered
               == o.delivered + [Delivery(header, track, frame, plaintext.value)]
  {
    StartsExactly(media, o, token, frame, track);
    var started := Started(media, o, token, frame, track);
    var checked := Checked(started, token, true);
    if token in checked.opens {
      CheckedKeepsFlight(media, started, token, true);
      DeliveredIsOwn(media, checked, token);
    }
  }

  /** An epoch no longer held is never held again, and nothing of it is delivered any more. */
  lemma {:induction false} GoneForEver(media: Media, o: Opener, epoch: nat, events: seq<Event>)
    requires epoch !in o.epochs && epoch <= o.latestEpoch
    ensures var end := Run(media, o, events);
            && epoch !in end.epochs
            && forall d :: d in end.delivered && d.header.epoch == epoch ==> d in o.delivered
    decreases |events|
  {
    if events != [] {
      GoneStep(media, o, epoch, events[0]);
      GoneForEver(media, Step(media, o, events[0]), epoch, events[1..]);
    }
  }

  lemma {:induction false} GoneStep(media: Media, o: Opener, epoch: nat, event: Event)
    requires epoch !in o.epochs && epoch <= o.latestEpoch
    ensures var next := Step(media, o, event);
            && epoch !in next.epochs && epoch <= next.latestEpoch
            && forall d :: d in next.delivered && d.header.epoch == epoch ==> d in o.delivered
  {
    if event.Decrypted? && Step(media, o, event).delivered != o.delivered {
      DeliveredIsOwn(media, o, event.token);
    }
  }

  lemma {:induction false} LatestGrows(media: Media, o: Opener, events: seq<Event>)
    ensures o.latestEpoch <= Run(media, o, events).latestEpoch
    decreases |events|
  {
    if events != [] {
      LatestGrows(media, Step(media, o, events[0]), events[1..]);
    }
  }

  /** After a failed import nothing of its epoch is delivered any more, whatever is added and opened. */
  lemma {:induction false} FailedImportDeliversNothing(media: Media, o: Opener, token: nat, callKey: Bytes, epoch: nat,
                                                       meanwhile: seq<Event>, events: seq<Event>)
    requires token !in o.imports && epoch <= MAX_EPOCH && epoch > o.latestEpoch
    requires StillImporting(token, meanwhile)
    ensures var before := Run(media, Step(media, o, AddKey(token, true, callKey, epoch)), meanwhile);
            var end := Run(media, Step(media, before, Imported(token, false)), events);
            forall d :: d in end.delivered && d.header.epoch == epoch ==> d in before.delivered
  {
    var begun := Step(media, o, AddKey(token, true, callKey, epoch));
    var before := Run(media, begun, meanwhile);
    ImportEndsItsEpoch(media, o, token, callKey, epoch, meanwhile, false);
    LatestGrows(media, begun, meanwhile);
    GoneForEver(media, Step(media, before, Imported(token, false)), epoch, events);
  }

  lemma {:induction false} DeliveredEpochs(media: Media, o: Opener, token: nat)
    requires Finished(media, o, token).delivered != o.delivered
    ensures token in o.opens
    ensures var epoch := o.opens[token].header.epoch;
            && epoch in o.epochs
            && Finished(media, o, token).epochs
               == if IsGreatest(epoch, o.epochs.Keys) then DropBefore(o.epochs, epoch) else o.epochs
  {
  }

  /** A call that decrypted its frame is over, whatever came of it, and no other call is touched. */
  lemma {:induction false} DecryptedEnds(media: Media, o: Opener, token: nat)
    requires FlightsHold(media, o) && token in o.opens && o.opens[token].admitted
    ensures var o' := Step(media, o, Decrypted(token));
            && o'.opens == o.opens - {token} && o'.imports == o.imports && o'.latestEpoch == o.latestEpoch
            && Step(media, o', Decrypted(token)) == o'
  {
  }

  /** What a delivery leaves held: exactly its own epoch if that is the latest held, and else all. */
  lemma {:induction false} DeliveryDropsOlder(media: Media, o: Opener, token: nat)
    requires Finished(media, o, token).delivered != o.delivered
    ensures token in o.opens && o.opens[token].header.epoch in o.epochs
    ensures var epoch := o.opens[token].header.epoch;
            Finished(media, o, token).epochs
            == if exists e :: e in o.epochs && e > epoch then o.epochs else map[epoch := o.epochs[epoch]]
  {
    DeliveredEpochs(media, o, token);
    DropsToGreatest(o.epochs, o.opens[token].header.epoch);
  }

  lemma {:induction false} DropsToGreatest(epochs: map<nat, nat>, epoch: nat)
    requires epoch in epochs
    ensures IsGreatest(epoch, epochs.Keys) <==> !exists e :: e in epochs && e > epoch
    ensures IsGreatest(epoch, epochs.Keys) ==> DropBefore(epochs, epoch) == map[epoch := epochs[epoch]]
  {
  }
}

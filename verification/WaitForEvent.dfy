/** Waiting for an event on a stream of blocks. */
module EventSubscription {
  import opened Wrappers
  import opened ByteStrings
  import opened RuntimeTables
  import opened BlockEvents

  /** What the node sends: the event bytes of a block, or an error of the connection. */
  datatype Message = Changed(bytes: Bytes) | ConnectionError

  /** A subscription whose stream ends after the given messages. */
  class Subscription {
    var messages: seq<Message>

    constructor (stream: seq<Message>)
      ensures messages == stream
    {
      messages := stream;
    }

    method Next() returns (m: Option<Message>)
      modifies this
      ensures old(messages) == [] ==> m == None && messages == []
      ensures old(messages) != [] ==> m == Some(old(messages)[0]) && messages == old(messages)[1..]
    {
      if messages == [] {
        return None;
      }
      m := Some(messages[0]);
      messages := messages[1..];
    }
  }

  datatype Outcome =
    | Found(details: EventDetails)
    | ExtrinsicFailed(details: EventDetails)
    | StreamError
    | DecodeError
    | NoStream

  /** A static event: the pallet and the name waited for. */
  datatype Target = Target(pallet: string, event: string)

  predicate Describes(d: EventDetails, pallet: string, event: string) {
    d.Valid() && d.Description().Some?
    && d.Description().value.pallet == pallet && d.Description().value.event == event
  }

  predicate HasFailed(d: EventDetails) {
    Describes(d, "System", "ExtrinsicFailed")
  }

  // ----- the flat view

  datatype Signal = Received(item: Item) | Broken

  function Signals(items: seq<Item>): (ss: seq<Signal>)
    ensures |ss| == |items|
  {
    seq(|items|, i requires 0 <= i < |items| => Received(items[i]))
  }

  function MessageSignals(md: Metadata, message: Message): seq<Signal> {
    match message
    case ConnectionError => [Broken]
    case Changed(bytes) => Signals(NewEvents(md, bytes).Iter())
  }

  /** All events of all blocks, in the order of the stream. */
  function Flatten(md: Metadata, stream: seq<Message>): seq<Signal> {
    if stream == [] then [] else MessageSignals(md, stream[0]) + Flatten(md, stream[1..])
  }

  lemma {:induction false} FlattenConcat(md: Metadata, p: seq<Message>, q: seq<Message>)
    ensures Flatten(md, p + q) == Flatten(md, p) + Flatten(md, q)
  {
    hide MessageSignals;
    if p == [] {
      assert p + q == q;
    } else {
      FlattenConcat(md, p[1..], q);
      assert (p + q)[1..] == p[1..] + q;
    }
  }

  /** What a single signal decides, if anything. */
  function Verdict(s: Signal, target: Target): Option<Outcome> {
    match s
    case Broken => Some(StreamError)
    case Received(Failed) => Some(DecodeError)
    case Received(Ok(d)) =>
      if HasFailed(d) then Some(ExtrinsicFailed(d))
      else if Describes(d, target.pallet, target.event) then Some(Found(d))
      else None
  }

  /** One scan from left to right. */
  function Scan(signals: seq<Signal>, target: Target): Outcome {
    if signals == [] then NoStream
    else match Verdict(signals[0], target)
         case Some(outcome) => outcome
         case None => Scan(signals[1..], target)
  }

  /** The first signal that decides anything decides; without one the stream has run out. */
  lemma {:induction false} FirstDecides(signals: seq<Signal>, target: Target)
    ensures Scan(signals, target) == NoStream <==>
            forall i :: 0 <= i < |signals| ==> Verdict(signals[i], target).None?
    ensures Scan(signals, target) != NoStream ==>
            exists i :: 0 <= i < |signals|
                        && Verdict(signals[i], target) == Some(Scan(signals, target))
                        && forall j :: 0 <= j < i ==> Verdict(signals[j], target).None?
  {
    hide Describes;
    if signals != [] && Verdict(signals[0], target).None? {
      var others := signals[1..];
      FirstDecides(others, target);
      assert forall j :: 0 <= j < |others| ==> others[j] == signals[j + 1];
      if Scan(others, target) != NoStream {
        var i :| 0 <= i < |others|
                 && Verdict(others[i], target) == Some(Scan(others, target))
                 && forall j :: 0 <= j < i ==> Verdict(others[j], target).None?;
        forall j | 0 <= j < i + 1 ensures Verdict(signals[j], target).None? {
          assert j > 0 ==> signals[j] == others[j - 1];
        }
        assert signals[i + 1] == others[i];
      } else {
        forall i | 0 <= i < |signals| ensures Verdict(signals[i], target).None? {
          assert i > 0 ==> signals[i] == others[i - 1];
        }
      }
    } else if signals != [] {
      assert Verdict(signals[0], target) == Some(Scan(signals, target));
    }
  }

  // ----- what the outcome means

  /** An event of the given pallet and name has arrived. */
  ghost predicate IsEvent(s: Signal, pallet: string, event: string) {
    s.Received? && s.item.Ok? && s.item.details.Valid()
    && var m := s.item.details.Description();
       m.Some? && m.value.pallet == pallet && m.value.event == event
  }

  /** Neither an error nor a failed extrinsic nor what is waited for. */
  ghost predicate Silent(s: Signal, target: Target) {
    && s != Broken && s != Received(Failed)
    && !IsEvent(s, "System", "ExtrinsicFailed") && !IsEvent(s, target.pallet, target.event)
  }

  /** The signal that gives the outcome: a failed extrinsic goes before the target. */
  ghost predicate Gives(s: Signal, outcome: Outcome, target: Target) {
    match outcome
    case StreamError => s == Broken
    case DecodeError => s == Received(Failed)
    case ExtrinsicFailed(d) => s == Received(Ok(d)) && IsEvent(s, "System", "ExtrinsicFailed")
    case Found(d) =>
      s == Received(Ok(d)) && IsEvent(s, target.pallet, target.event) && !IsEvent(s, "System", "ExtrinsicFailed")
    case NoStream => false
  }

  /** The outcome comes from the first signal that is not silent; the stream runs out only if all are. */
  ghost predicate Means(outcome: Outcome, signals: seq<Signal>, target: Target) {
    if outcome.NoStream? then forall i :: 0 <= i < |signals| ==> Silent(signals[i], target)
    else exists i :: 0 <= i < |signals| && Gives(signals[i], outcome, target)
                     && forall j :: 0 <= j < i ==> Silent(signals[j], target)
  }

  lemma VerdictMeaning(s: Signal, target: Target)
    ensures Verdict(s, target).None? <==> Silent(s, target)
    ensures Verdict(s, target).Some? ==> Gives(s, Verdict(s, target).value, target)
  {
  }

  /** There is one outcome with that meaning, and the scan finds it. */
  lemma {:induction false} OutcomeMeaning(signals: seq<Signal>, target: Target, outcome: Outcome)
    ensures Means(outcome, signals, target) <==> outcome == Scan(signals, target)
  {
    hide Verdict, Scan, Silent, Gives;
    ScanMeaning(signals, target);
    if Means(outcome, signals, target) {
      OneMeaning(signals, target, outcome, Scan(signals, target));
    }
  }

  lemma ScanMeaning(signals: seq<Signal>, target: Target)
    ensures Means(Scan(signals, target), signals, target)
  {
    hide Verdict, Scan, Silent, Gives;
    FirstDecides(signals, target);
    forall i | 0 <= i < |signals|
      ensures Verdict(signals[i], target).None? <==> Silent(signals[i], target)
      ensures Verdict(signals[i], target).Some? ==> Gives(signals[i], Verdict(signals[i], target).value, target)
    {
      VerdictMeaning(signals[i], target);
    }
  }

  lemma OneMeaning(signals: seq<Signal>, target: Target, o: Outcome, p: Outcome)
    requires Means(o, signals, target) && Means(p, signals, target)
    ensures o == p
  {
    hide IsEvent;
    if !o.NoStream? && !p.NoStream? {
      var i :| 0 <= i < |signals| && Gives(signals[i], o, target)
               && forall j :: 0 <= j < i ==> Silent(signals[j], target);
      var k :| 0 <= k < |signals| && Gives(signals[k], p, target)
               && forall j :: 0 <= j < k ==> Silent(signals[j], target);
      assert i == k;
    }
  }

  /** What comes first decides if it decides anything. */
  lemma {:induction false} ScanConcat(p: seq<Signal>, q: seq<Signal>, target: Target)
    ensures Scan(p + q, target) == if Scan(p, target) == NoStream then Scan(q, target) else Scan(p, target)
  {
    hide Describes;
    if p == [] {
      assert p + q == q;
    } else {
      ScanConcat(p[1..], q, target);
      assert (p + q)[1..] == p[1..] + q;
    }
  }

  // ----- the nested loops

  /** The outcome of scanning the first `k` messages. */
  ghost function ScanFirst(md: Metadata, stream: seq<Message>, k: nat, target: Target): Outcome
    requires k <= |stream|
  {
    Scan(Flatten(md, stream[..k]), target)
  }

  /**
   `wait_for_event_details`: the outer loop takes blocks from the subscription, up to the one that
   decides and none behind it.
   */
  method WaitForEventDetails(md: Metadata, target: Target, subscription: Subscription) returns (outcome: Outcome)
    modifies subscription
    ensures outcome == Scan(Flatten(md, old(subscription.messages)), target)
    ensures Means(outcome, Flatten(md, old(subscription.messages)), target)
    ensures |subscription.messages| <= |old(subscription.messages)|
    ensures var stream := old(subscription.messages);
            var k := |stream| - |subscription.messages|;
            && subscription.messages == stream[k..]
            && ScanFirst(md, stream, k, target) == outcome
            && (outcome == NoStream ==> k == |stream|)
            && (outcome != NoStream ==> k > 0 && ScanFirst(md, stream, k - 1, target) == NoStream)
  {
    hide Scan, Flatten, NewEvents, Signals, ScanFirst, Means;
    OutcomeMeaning(Flatten(md, subscription.messages), target, Scan(Flatten(md, subscription.messages), target));
    ghost var stream := subscription.messages;
    ghost var k := 0;
    NothingScanned(md, stream, target);
    while true
      invariant k <= |stream| && subscription.messages == stream[k..]
      invariant ScanFirst(md, stream, k, target) == NoStream
      decreases |stream| - k
    {
      var message := subscription.Next();
      if message.None? {
        AllScanned(md, stream, target);
        return NoStream;
      }
      ScanNext(md, stream, k, target);
      k := k + 1;
      if message.value.ConnectionError? {
        BrokenDecides(target);
        return StreamError;
      }
      var decided := ScanBlock(NewEvents(md, message.value.bytes), target);
      if decided.Some? {
        return decided.value;
      }
    }
  }

  lemma NothingScanned(md: Metadata, stream: seq<Message>, target: Target)
    ensures ScanFirst(md, stream, 0, target) == NoStream
  {
  }

  lemma AllScanned(md: Metadata, stream: seq<Message>, target: Target)
    ensures ScanFirst(md, stream, |stream|, target) == Scan(Flatten(md, stream), target)
  {
    assert stream[..|stream|] == stream;
  }

  /** After nothing was decided the next message is what counts, and if it decides it does so for the whole stream. */
  lemma ScanNext(md: Metadata, stream: seq<Message>, k: nat, target: Target)
    requires k < |stream| && ScanFirst(md, stream, k, target) == NoStream
    ensures var outcome := Scan(MessageSignals(md, stream[k]), target);
            && ScanFirst(md, stream, k + 1, target) == outcome
            && (outcome != NoStream ==> Scan(Flatten(md, stream), target) == outcome)
  {
    hide MessageSignals, Scan, Flatten;
    var before, after := stream[..k], stream[k + 1..];
    assert stream[..k + 1] == before + [stream[k]];
    assert stream == stream[..k + 1] + after;
    FlattenConcat(md, before, [stream[k]]);
    FlattenConcat(md, stream[..k + 1], after);
    FlattenOne(md, stream[k]);
    ScanConcat(Flatten(md, before), MessageSignals(md, stream[k]), target);
    ScanConcat(Flatten(md, stream[..k + 1]), Flatten(md, after), target);
  }

  lemma FlattenOne(md: Metadata, message: Message)
    ensures Flatten(md, [message]) == MessageSignals(md, message)
  {
    hide MessageSignals;
    assert Flatten(md, []) == [];
  }

  lemma BrokenDecides(target: Target)
    ensures Scan([Broken], target) == StreamError
  {
  }

  /** The inner loop, over the events of one block. */
  method ScanBlock(events: Events, target: Target) returns (decided: Option<Outcome>)
    ensures decided.Some? <==> Scan(Signals(events.Iter()), target) != NoStream
    ensures decided.Some? ==> decided.value == Scan(Signals(events.Iter()), target)
    ensures Means(if decided.Some? then decided.value else NoStream, Signals(events.Iter()), target)
    ensures forall later :: Scan(Signals(events.Iter()) + later, target) ==
              match decided case Some(outcome) => outcome case None => Scan(later, target)
  {
    hide Iterate, DecodeFrom, Describes, Signals, Scan, Means;
    ScanMeaning(Signals(events.Iter()), target);
    InFront(Signals(events.Iter()), target);
    var iter := new EventIter(events);
    ghost var pending := iter.Remaining();
    var item := iter.Next();
    while item.Some?
      invariant pending == Pending(item, iter.Remaining())
      invariant item.None? ==> pending == []
      invariant Scan(Signals(events.Iter()), target) == Scan(Signals(pending), target)
      decreases |pending|
    {
      ScanStep(item.value, iter.Remaining(), target);
      if item.value.Failed? {
        return Some(DecodeError);
      }
      var d := item.value.details;
      if HasFailed(d) {
        return Some(ExtrinsicFailed(d));
      }
      if Describes(d, target.pallet, target.event) {
        return Some(Found(d));
      }
      pending := iter.Remaining();
      item := iter.Next();
    }
    NoSignals(target);
    return None;
  }

  lemma InFront(p: seq<Signal>, target: Target)
    ensures forall q :: Scan(p + q, target) == if Scan(p, target) == NoStream then Scan(q, target) else Scan(p, target)
  {
    hide Scan;
    forall q ensures Scan(p + q, target) == if Scan(p, target) == NoStream then Scan(q, target) else Scan(p, target) {
      ScanConcat(p, q, target);
    }
  }

  lemma ScanStep(item: Item, remaining: seq<Item>, target: Target)
    ensures Scan(Signals([item] + remaining), target) ==
            match Verdict(Received(item), target)
            case Some(outcome) => outcome
            case None => Scan(Signals(remaining), target)
  {
    hide Verdict;
    assert Signals([item] + remaining) == [Received(item)] + Signals(remaining);
  }

  lemma NoSignals(target: Target)
    ensures Scan(Signals([]), target) == NoStream
  {
  }

  /** The item in hand and those behind it. */
  ghost function Pending(item: Option<Item>, remaining: seq<Item>): seq<Item> {
    if item.Some? then [item.value] + remaining else remaining
  }
}

/**
 The response of a Flight query as the client sees it: the record batch stream
 built from the message stream, and the handle whose terminal metrics become
 final when the consumer sees the end of the stream.
 */
module FlightStream {
  import opened Integers
  import opened Option

  /** The metrics of a query: the regions that took part, each with its watermark if one was proved. */
  type Metrics = seq<(U64, Option<U64>)>

  type Parser = string -> Option<Metrics>

  datatype Message =
    | Schema(convertible: bool)
    | RecordBatch(payload: seq<int>)
    | AffectedRows(rows: nat, metrics: Option<string>)
    | MetricsText(text: string)

  /** What one read of the message stream gives: nothing yet, a message, or an error. */
  datatype Event = NotYet | Got(message: Message) | Failed(code: int)

  datatype Item =
    | Batch(payload: seq<int>)
    | ReadError(code: int)
    | BadMetrics(text: string)
    | IllegalMessage(message: Message)

  datatype Poll = Waiting | Ready(item: Option<Item>)

  // ---------- What a response means ----------

  /** A read error, a second schema, or a row count ends the stream. */
  predicate Ends(e: Event) {
    match e
    case NotYet => false
    case Failed(_) => true
    case Got(m) => m.Schema? || m.AffectedRows?
  }

  /** The number of events before the one that ends the stream. */
  function Cut(events: seq<Event>): (n: nat)
    ensures n <= |events|
    ensures forall i :: 0 <= i < n ==> !Ends(events[i])
    ensures n < |events| ==> Ends(events[n])
  {
    if events == [] || Ends(events[0]) then 0 else 1 + Cut(events[1..])
  }

  /** What an event contributes to the items of the stream. */
  function ItemsOf(parse: Parser, e: Event): seq<Item> {
    match e
    case NotYet => []
    case Failed(code) => [ReadError(code)]
    case Got(RecordBatch(payload)) => [Batch(payload)]
    case Got(MetricsText(text)) => if parse(text).Some? then [] else [BadMetrics(text)]
    case Got(m) => [IllegalMessage(m)]
  }

  function AllItems(parse: Parser, events: seq<Event>): seq<Item> {
    if events == [] then [] else ItemsOf(parse, events[0]) + AllItems(parse, events[1..])
  }

  /** The events up to and including the one that ends the stream. */
  function ToItsEnd(events: seq<Event>): seq<Event> {
    var n := Cut(events);
    if n < |events| then events[..n + 1] else events
  }

  /** The items of a response: those up to and including the event that ends it, and nothing after. */
  function Expected(parse: Parser, events: seq<Event>): seq<Item> {
    AllItems(parse, ToItsEnd(events))
  }

  /** The metrics after one event: well-formed ones replace those before. */
  function MetricsWith(parse: Parser, e: Event, metrics: Option<Metrics>): Option<Metrics> {
    if e.Got? && e.message.MetricsText? && parse(e.message.text).Some? then parse(e.message.text) else metrics
  }

  /** The metrics after these events, given those before. */
  function MetricsAfter(parse: Parser, events: seq<Event>, metrics: Option<Metrics>): Option<Metrics> {
    if events == [] then metrics
    else MetricsAfter(parse, events[1..], MetricsWith(parse, events[0], metrics))
  }

  /** The last well-formed metrics before the end of the response. */
  function FinalMetrics(parse: Parser, events: seq<Event>): Option<Metrics> {
    MetricsAfter(parse, events[..Cut(events)], None)
  }

  // ---------- The stream ----------

  /** The generator behind the stream: the events not read yet, and whether it has left its loop. */
  datatype Source = Source(events: seq<Event>, metrics: Option<Metrics>, over: bool)

  /** The stream together with the handle given to the caller. */
  datatype Response = Response(source: Source, metrics: Option<Metrics>, ready: bool)

  /** One poll of the generator: it reads until it has an item, has to wait, or has come to its end. */
  function PollSource(parse: Parser, s: Source): (Source, Poll)
    decreases |s.events|
  {
    if s.over || s.events == [] then (s.(over := true), Ready(None))
    else
      var rest := s.(events := s.events[1..]);
      match s.events[0]
      case NotYet => (rest, Waiting)
      case Failed(code) => (rest.(over := true), Ready(Some(ReadError(code))))
      case Got(RecordBatch(payload)) => (rest, Ready(Some(Batch(payload))))
      case Got(MetricsText(text)) =>
        if parse(text).Some? then PollSource(parse, rest.(metrics := parse(text)))
        else (rest, Ready(Some(BadMetrics(text))))
      case Got(m) => (rest.(over := true), Ready(Some(IllegalMessage(m))))
  }

  /** `StreamWithMetrics::poll_next`: the end of the stream synchronises the metrics and marks them ready. */
  function AfterPoll(parse: Parser, r: Response): (Response, Poll) {
    var (source, polled) := PollSource(parse, r.source);
    if polled == Ready(None) then (Response(source, source.metrics, true), polled)
    else (r.(source := source), polled)
  }

  /** What a consumer can do with the stream. */
  datatype Action = PollNext | ReadMetrics

  function Apply(parse: Parser, r: Response, action: Action): Response {
    match action
    case PollNext => AfterPoll(parse, r).0
    case ReadMetrics => r.(metrics := r.source.metrics)
  }

  /** The item an action hands to the consumer, if any. */
  function Yields(parse: Parser, r: Response, action: Action): seq<Item> {
    if action.ReadMetrics? then []
    else
      match AfterPoll(parse, r).1
      case Ready(Some(item)) => [item]
      case _ => []
  }

  function Final(parse: Parser, r: Response, actions: seq<Action>): Response
    decreases actions
  {
    if actions == [] then r else Final(parse, Apply(parse, r, actions[0]), actions[1..])
  }

  function Yielded(parse: Parser, r: Response, actions: seq<Action>): seq<Item>
    decreases actions
  {
    if actions == [] then []
    else Yields(parse, r, actions[0]) + Yielded(parse, Apply(parse, r, actions[0]), actions[1..])
  }

  /** The consumer has been told that the stream is over. */
  predicate SawEnd(parse: Parser, r: Response, actions: seq<Action>)
    decreases actions
  {
    actions != [] &&
    ((actions[0].PollNext? && AfterPoll(parse, r).1 == Ready(None))
     || SawEnd(parse, Apply(parse, r, actions[0]), actions[1..]))
  }

  function Opened(events: seq<Event>): Response {
    Response(Source(events, None, false), None, false)
  }

  // ---------- What is left to come ----------

  function Left(parse: Parser, s: Source): seq<Item> {
    if s.over then [] else Expected(parse, s.events)
  }

  function LeftMetrics(parse: Parser, s: Source): Option<Metrics> {
    if s.over then s.metrics else MetricsAfter(parse, s.events[..Cut(s.events)], s.metrics)
  }

  lemma ExpectedNext(parse: Parser, events: seq<Event>)
    requires events != []
    ensures Expected(parse, events) ==
            if Ends(events[0]) then ItemsOf(parse, events[0])
            else ItemsOf(parse, events[0]) + Expected(parse, events[1..])
  {
    var n := Cut(events);
    if Ends(events[0]) {
      assert events[..1] == [events[0]];
      assert [events[0]][1..] == [];
      assert AllItems(parse, [events[0]]) == ItemsOf(parse, events[0]) + AllItems(parse, []);
    } else if n < |events| {
      assert events[..n + 1][1..] == events[1..][..n];
    }
  }

  lemma MetricsNext(parse: Parser, events: seq<Event>, metrics: Option<Metrics>)
    requires events != [] && !Ends(events[0])
    ensures MetricsAfter(parse, events[..Cut(events)], metrics) ==
            MetricsAfter(parse, events[1..][..Cut(events[1..])], MetricsWith(parse, events[0], metrics))
  {
    var n := Cut(events);
    assert events[..n][1..] == events[1..][..n - 1];
    assert events[..n][0] == events[0];
  }

  function ItemOf(polled: Poll): seq<Item> {
    match polled
    case Ready(Some(item)) => [item]
    case _ => []
  }

  /** A poll moves one item from what is left to the consumer and does not change the outcome. */
  lemma {:induction false} PollConserves(parse: Parser, s: Source)
    ensures var (s', polled) := PollSource(parse, s);
      && Conserved(parse, s, ItemOf(polled), s')
      && (polled == Ready(None) ==> s'.over)
    decreases |s.events|
  {
    if !s.over && s.events != [] {
      ExpectedNext(parse, s.events);
      var e := s.events[0];
      if Ends(e) {
        assert s.events[..0] == [];
      } else {
        MetricsNext(parse, s.events, s.metrics);
        if e.Got? && e.message.MetricsText? && parse(e.message.text).Some? {
          PollConserves(parse, s.(events := s.events[1..], metrics := parse(e.message.text)));
        }
      }
    } else {
      assert s.events[..Cut(s.events)] == [] || s.over;
    }
  }

  /** The handle is final once it is ready. */
  ghost predicate Settled(r: Response) {
    r.ready ==> r.source.over && r.metrics == r.source.metrics
  }

  lemma StepConserves(parse: Parser, r: Response, action: Action)
    requires Settled(r)
    ensures var r' := Apply(parse, r, action);
      && Settled(r')
      && Conserved(parse, r.source, Yields(parse, r, action), r'.source)
      && (r'.ready <==> r.ready || (action.PollNext? && AfterPoll(parse, r).1 == Ready(None)))
  {
    PollConserves(parse, r.source);
    if action.PollNext? {
      var (source, polled) := PollSource(parse, r.source);
      assert Yields(parse, r, action) == ItemOf(polled);
    }
  }

  lemma {:induction false} RunConserves(parse: Parser, r: Response, actions: seq<Action>)
    requires Settled(r)
    ensures Conserved(parse, r.source, Yielded(parse, r, actions), Final(parse, r, actions).source)
    decreases actions
  {
    if actions == [] {
      assert [] + Left(parse, r.source) == Left(parse, r.source);
    } else {
      StepConserves(parse, r, actions[0]);
      var r1 := Apply(parse, r, actions[0]);
      RunConserves(parse, r1, actions[1..]);
      ConservedTransitive(parse, r.source, Yields(parse, r, actions[0]), r1.source,
                          Yielded(parse, r1, actions[1..]), Final(parse, r1, actions[1..]).source);
    }
  }

  /** What was left before is what was handed out, followed by what is left after; the outcome is the same. */
  ghost predicate Conserved(parse: Parser, before: Source, items: seq<Item>, after: Source) {
    items + Left(parse, after) == Left(parse, before) && LeftMetrics(parse, after) == LeftMetrics(parse, before)
  }

  lemma ConservedTransitive(parse: Parser, a: Source, xs: seq<Item>, b: Source, ys: seq<Item>, c: Source)
    requires Conserved(parse, a, xs, b) && Conserved(parse, b, ys, c)
    ensures Conserved(parse, a, xs + ys, c)
  {
    assert xs + (ys + Left(parse, c)) == (xs + ys) + Left(parse, c);
  }

  lemma {:induction false} RunSettles(parse: Parser, r: Response, actions: seq<Action>)
    requires Settled(r)
    ensures Settled(Final(parse, r, actions))
    ensures Final(parse, r, actions).ready <==> r.ready || SawEnd(parse, r, actions)
    decreases actions
  {
    if actions == [] {
    } else {
      StepConserves(parse, r, actions[0]);
      RunSettles(parse, Apply(parse, r, actions[0]), actions[1..]);
    }
  }

  /**
   For every response and every behaviour of its consumer: what the consumer got
   is a prefix of the expected items; the handle is ready exactly when the
   consumer has been told of the end; and then it got all items, the metrics are
   the last well-formed ones before the end of the response, and nothing the
   consumer does later changes either.
   */
  lemma ConsumerSeesTheResponse(parse: Parser, events: seq<Event>, actions: seq<Action>, later: seq<Action>)
    ensures var r := Final(parse, Opened(events), actions);
      && Yielded(parse, Opened(events), actions) <= Expected(parse, events)
      && (r.ready <==> SawEnd(parse, Opened(events), actions))
      && (r.ready ==>
            && Yielded(parse, Opened(events), actions) == Expected(parse, events)
            && r.metrics == FinalMetrics(parse, events)
            && Yielded(parse, r, later) == []
            && Final(parse, r, later).ready && Final(parse, r, later).metrics == r.metrics)
  {
    RunConserves(parse, Opened(events), actions);
    RunSettles(parse, Opened(events), actions);
    var r := Final(parse, Opened(events), actions);
    if r.ready {
      RunConserves(parse, r, later);
      ReadyStaysReady(parse, r, later);
    }
  }

  lemma {:induction false} ReadyStaysReady(parse: Parser, r: Response, actions: seq<Action>)
    requires Settled(r) && r.ready
    ensures Final(parse, r, actions).ready && Final(parse, r, actions).metrics == r.metrics
    decreases actions
  {
    if actions == [] {
    } else {
      ReadyStaysReady(parse, Apply(parse, r, actions[0]), actions[1..]);
    }
  }

  function Polls(n: nat): seq<Action> {
    if n == 0 then [] else [PollNext] + Polls(n - 1)
  }

  lemma {:induction false} PollMakesProgress(parse: Parser, s: Source)
    ensures var (s', polled) := PollSource(parse, s);
      polled != Ready(None) ==> |s'.events| < |s.events|
    decreases |s.events|
  {
    if !s.over && s.events != [] {
      var e := s.events[0];
      if e.Got? && e.message.MetricsText? && parse(e.message.text).Some? {
        PollMakesProgress(parse, s.(events := s.events[1..], metrics := parse(e.message.text)));
      }
    }
  }

  /** A consumer that keeps polling sees the end after at most one poll per event and one more. */
  lemma {:induction false} PollingEnds(parse: Parser, r: Response, n: nat)
    requires Settled(r) && n > |r.source.events|
    ensures Final(parse, r, Polls(n)).ready
    decreases n
  {
    var r1 := Apply(parse, r, PollNext);
    StepConserves(parse, r, PollNext);
    FirstPoll(parse, r, n);
    if r1.ready {
      ReadyStaysReady(parse, r1, Polls(n - 1));
    } else {
      PollMakesProgress(parse, r.source);
      PollingEnds(parse, r1, n - 1);
    }
  }

  lemma FirstPoll(parse: Parser, r: Response, n: nat)
    requires n > 0
    ensures Final(parse, r, Polls(n)) == Final(parse, Apply(parse, r, PollNext), Polls(n - 1))
  {
    assert Polls(n)[0] == PollNext && Polls(n)[1..] == Polls(n - 1);
  }

  // ---------- The items, read off the messages ----------

  /** The record batches among the events, in order. */
  function Payloads(events: seq<Event>): seq<seq<int>> {
    if events == [] then []
    else
      (if events[0].Got? && events[0].message.RecordBatch? then [events[0].message.payload] else []) +
      Payloads(events[1..])
  }

  function Batches(items: seq<Item>): seq<seq<int>> {
    if items == [] then []
    else (if items[0].Batch? then [items[0].payload] else []) + Batches(items[1..])
  }

  lemma {:induction false} BatchesConcat(xs: seq<Item>, ys: seq<Item>)
    ensures Batches(xs + ys) == Batches(xs) + Batches(ys)
  {
    if xs == [] {
      assert xs + ys == ys;
    } else {
      assert (xs + ys)[1..] == xs[1..] + ys;
      BatchesConcat(xs[1..], ys);
    }
  }

  /** The batches of a response are the record batches before the event that ends it, in order. */
  lemma {:induction false} BatchesAreThePayloads(parse: Parser, events: seq<Event>)
    ensures Batches(Expected(parse, events)) == Payloads(events[..Cut(events)])
    decreases |events|
  {
    if events == [] {
    } else {
      ExpectedNext(parse, events);
      var items := ItemsOf(parse, events[0]);
      assert items == [] || items[1..] == [];
      if Ends(events[0]) {
        assert events[..0] == [];
        assert Batches(items) == [] + Batches([]);
      } else {
        BatchesAreThePayloads(parse, events[1..]);
        BatchesConcat(items, Expected(parse, events[1..]));
        var n := Cut(events);
        assert events[..n][1..] == events[1..][..n - 1];
        assert events[..n][0] == events[0];
      }
    }
  }

  /** An event that ends the response contributes the last item; a response without one ends in silence. */
  lemma {:induction false} NothingFollowsTheEnd(parse: Parser, events: seq<Event>)
    ensures var n := Cut(events);
      Expected(parse, events) == AllItems(parse, events[..n]) + (if n < |events| then ItemsOf(parse, events[n]) else [])
    ensures Cut(events) < |events| ==> |ItemsOf(parse, events[Cut(events)])| == 1
    decreases |events|
  {
    var n := Cut(events);
    if n < |events| {
      AllItemsSnoc(parse, events[..n], events[n]);
      assert events[..n + 1] == events[..n] + [events[n]];
    } else {
      assert events[..n] == events;
    }
  }

  lemma {:induction false} AllItemsSnoc(parse: Parser, events: seq<Event>, e: Event)
    ensures AllItems(parse, events + [e]) == AllItems(parse, events) + ItemsOf(parse, e)
  {
    if events == [] {
      assert events + [e] == [e] && [e][1..] == [];
      assert AllItems(parse, [e]) == ItemsOf(parse, e) + AllItems(parse, []);
    } else {
      assert (events + [e])[1..] == events[1..] + [e];
      AllItemsSnoc(parse, events[1..], e);
    }
  }

  /** The event that an item reports. */
  function EventOf(item: Item): Event {
    match item
    case Batch(payload) => Got(RecordBatch(payload))
    case ReadError(code) => Failed(code)
    case BadMetrics(text) => Got(MetricsText(text))
    case IllegalMessage(m) => Got(m)
  }

  function EventsOf(items: seq<Item>): seq<Event> {
    if items == [] then [] else [EventOf(items[0])] + EventsOf(items[1..])
  }

  /** Waits and well-formed metrics are not shown to the consumer. */
  predicate IsQuiet(parse: Parser, e: Event) {
    e.NotYet? || (e.Got? && e.message.MetricsText? && parse(e.message.text).Some?)
  }

  function Loud(parse: Parser, events: seq<Event>): seq<Event> {
    if events == [] then []
    else (if IsQuiet(parse, events[0]) then [] else [events[0]]) + Loud(parse, events[1..])
  }

  /** The sort of each item is that of the event it reports. */
  predicate Fitting(item: Item) {
    match item
    case IllegalMessage(m) => m.Schema? || m.AffectedRows?
    case _ => true
  }

  predicate AllFitting(items: seq<Item>) {
    items == [] || (Fitting(items[0]) && AllFitting(items[1..]))
  }

  lemma ItemReports(parse: Parser, e: Event)
    ensures var items := ItemsOf(parse, e);
      if IsQuiet(parse, e) then items == [] else |items| == 1 && EventOf(items[0]) == e && Fitting(items[0])
  {
  }

  lemma {:induction false} ItemsReport(parse: Parser, events: seq<Event>)
    ensures EventsOf(AllItems(parse, events)) == Loud(parse, events) && AllFitting(AllItems(parse, events))
  {
    if events == [] {
    } else {
      ItemsReport(parse, events[1..]);
      ItemReports(parse, events[0]);
      var items, rest := ItemsOf(parse, events[0]), AllItems(parse, events[1..]);
      if items == [] {
        assert items + rest == rest;
      } else {
        assert (items + rest)[1..] == rest;
      }
    }
  }

  /**
   The items report, one for one and in order, the events up to and including the
   one that ends the response, but for waits and well-formed metrics.
   */
  lemma ExpectedReports(parse: Parser, events: seq<Event>)
    ensures EventsOf(Expected(parse, events)) == Loud(parse, ToItsEnd(events)) && AllFitting(Expected(parse, events))
  {
    ItemsReport(parse, ToItsEnd(events));
  }

  /** A read error and a message out of place are fatal; bad metrics are not. */
  predicate Fatal(item: Item) {
    item.ReadError? || item.IllegalMessage?
  }

  predicate NoneFatal(items: seq<Item>) {
    items == [] || (!Fatal(items[0]) && NoneFatal(items[1..]))
  }

  lemma {:induction false} NoneFatalBefore(parse: Parser, events: seq<Event>)
    requires Cut(events) == |events|
    ensures NoneFatal(AllItems(parse, events))
  {
    if events == [] {
    } else {
      NoneFatalBefore(parse, events[1..]);
      var items, rest := ItemsOf(parse, events[0]), AllItems(parse, events[1..]);
      if items == [] {
        assert items + rest == rest;
      } else {
        assert (items + rest)[1..] == rest;
      }
    }
  }

  /** The items are not fatal but for the last one, which is fatal exactly when an event ended the response. */
  lemma OnlyTheLastIsFatal(parse: Parser, events: seq<Event>)
    ensures var n, items := Cut(events), Expected(parse, events);
      if n == |events| then NoneFatal(items)
      else items != [] && NoneFatal(items[..|items| - 1]) && Fatal(items[|items| - 1])
  {
    var n := Cut(events);
    var before := events[..n];
    CutOfPrefix(events);
    NoneFatalBefore(parse, before);
    NothingFollowsTheEnd(parse, events);
    if n < |events| {
      var last := ItemsOf(parse, events[n]);
      assert (AllItems(parse, before) + last)[..|AllItems(parse, before)|] == AllItems(parse, before);
    } else {
      assert before == events && AllItems(parse, before) + [] == AllItems(parse, before);
    }
  }

  lemma {:induction false} CutOfPrefix(events: seq<Event>)
    ensures Cut(events[..Cut(events)]) == Cut(events)
  {
    var before := events[..Cut(events)];
    assert forall i :: 0 <= i < |before| ==> before[i] == events[i] && !Ends(events[i]);
  }

  predicate GoodMetrics(parse: Parser, e: Event) {
    e.Got? && e.message.MetricsText? && parse(e.message.text).Some?
  }

  lemma {:induction false} MetricsAfterIs(parse: Parser, events: seq<Event>, metrics: Option<Metrics>, i: nat)
    requires forall j :: i < j < |events| ==> !GoodMetrics(parse, events[j])
    ensures i < |events| && GoodMetrics(parse, events[i]) ==>
      MetricsAfter(parse, events, metrics) == parse(events[i].message.text)
    ensures (forall j :: 0 <= j < |events| ==> !GoodMetrics(parse, events[j])) ==>
      MetricsAfter(parse, events, metrics) == metrics
    decreases |events|
  {
    if events == [] {
    } else {
      var next := MetricsWith(parse, events[0], metrics);
      if i == 0 {
        MetricsAfterIs(parse, events[1..], next, 0);
        assert forall j :: 0 <= j < |events[1..]| ==> !GoodMetrics(parse, events[1..][j]);
      } else {
        MetricsAfterIs(parse, events[1..], next, i - 1);
      }
    }
  }

  /** The metrics of a response are the last well-formed ones before its end, or none. */
  lemma FinalMetricsAreTheLast(parse: Parser, events: seq<Event>, i: nat)
    requires forall j :: i < j < Cut(events) ==> !GoodMetrics(parse, events[j])
    ensures i < Cut(events) && GoodMetrics(parse, events[i]) ==>
      FinalMetrics(parse, events) == parse(events[i].message.text)
    ensures (forall j :: 0 <= j < Cut(events) ==> !GoodMetrics(parse, events[j])) ==>
      FinalMetrics(parse, events).None?
  {
    MetricsAfterIs(parse, events[..Cut(events)], None, i);
  }

  lemma {:induction false} MetricsAfterConcat(
    parse: Parser, xs: seq<Event>, ys: seq<Event>, metrics: Option<Metrics>)
    ensures MetricsAfter(parse, xs + ys, metrics) == MetricsAfter(parse, ys, MetricsAfter(parse, xs, metrics))
  {
    if xs == [] {
      assert xs + ys == ys;
    } else {
      assert (xs + ys)[1..] == xs[1..] + ys;
      MetricsAfterConcat(parse, xs[1..], ys, MetricsWith(parse, xs[0], metrics));
    }
  }

  /** The source has read these events, and holds the last well-formed metrics among them. */
  ghost predicate HasRead(parse: Parser, s: Source, read: seq<Event>, events: seq<Event>) {
    read + s.events == events && s.metrics == MetricsAfter(parse, read, None)
  }

  lemma {:induction false} PollReads(parse: Parser, s: Source, read: seq<Event>, events: seq<Event>)
    returns (more: seq<Event>)
    requires HasRead(parse, s, read, events)
    ensures HasRead(parse, PollSource(parse, s).0, read + more, events)
    decreases |s.events|
  {
    if s.over || s.events == [] {
      more := [];
      assert read + more == read;
    } else {
      var e := s.events[0];
      more := [e];
      MetricsAfterConcat(parse, read, [e], None);
      assert [e][1..] == [];
      assert MetricsAfter(parse, [e], s.metrics) == MetricsWith(parse, e, s.metrics);
      assert read + [e] + s.events[1..] == events;
      if GoodMetrics(parse, e) {
        var rest := PollReads(parse, s.(events := s.events[1..], metrics := parse(e.message.text)), read + [e], events);
        more := [e] + rest;
        assert read + [e] + rest == read + more;
      }
    }
  }

  lemma {:induction false} RunReads(
    parse: Parser, r: Response, actions: seq<Action>, read: seq<Event>, events: seq<Event>)
    returns (more: seq<Event>)
    requires HasRead(parse, r.source, read, events)
    ensures HasRead(parse, Final(parse, r, actions).source, read + more, events)
    decreases actions
  {
    if actions == [] {
      more := [];
      assert read + more == read;
    } else if actions[0].ReadMetrics? {
      more := RunReads(parse, Apply(parse, r, actions[0]), actions[1..], read, events);
    } else {
      var first := PollReads(parse, r.source, read, events);
      var rest := RunReads(parse, Apply(parse, r, actions[0]), actions[1..], read + first, events);
      more := first + rest;
      assert read + first + rest == read + more;
    }
  }

  /**
   Metrics asked for at any time, before the end too, are the last well-formed ones
   among the events that the stream has read by then.
   */
  lemma MetricsSoFar(parse: Parser, events: seq<Event>, actions: seq<Action>) returns (read: seq<Event>)
    ensures var r := Final(parse, Opened(events), actions);
      && read + r.source.events == events
      && Apply(parse, r, ReadMetrics).metrics == MetricsAfter(parse, read, None)
  {
    assert [] + events == events;
    read := RunReads(parse, Opened(events), actions, [], events);
    assert [] + read == read;
  }

  // ---------- Opening a response ----------

  datatype Output =
    | Rows(rows: nat, metrics: Option<Metrics>)
    | Stream(response: Response)

  datatype OpenError =
    | Unreadable(code: int)
    | EmptyResponse
    | InvalidMetrics(text: string)
    | NotAllowed(message: Message)
    | BadSchema

  datatype Result = Ok(output: Output) | Err(error: OpenError)

  /** The next read that is not a wait, and the events after it; `None` at the end of the stream. */
  function Read(events: seq<Event>): (Option<Event>, seq<Event>) {
    if events == [] then (None, [])
    else if events[0].NotYet? then Read(events[1..])
    else (Some(events[0]), events[1..])
  }

  /** The metrics sent with a row count or right after it; two of them are one too many. */
  function RowMetrics(parse: Parser, inline: Option<string>, rest: seq<Event>, rows: nat): Result {
    if inline.Some? && parse(inline.value).None? then Err(InvalidMetrics(inline.value))
    else
      var metrics := if inline.Some? then parse(inline.value) else None;
      match Read(rest).0
      case None => Ok(Rows(rows, metrics))
      case Some(Failed(code)) => Err(Unreadable(code))
      case Some(Got(MetricsText(text))) =>
        if metrics.Some? then Err(NotAllowed(MetricsText(text)))
        else if parse(text).None? then Err(InvalidMetrics(text))
        else Ok(Rows(rows, parse(text)))
      case Some(Got(m)) => Err(NotAllowed(m))
      case Some(NotYet) => Err(EmptyResponse)
  }

  /** `output_from_flight_message_stream`. */
  function Open(parse: Parser, events: seq<Event>): Result {
    var (first, rest) := Read(events);
    match first
    case None => Err(EmptyResponse)
    case Some(Failed(code)) => Err(Unreadable(code))
    case Some(Got(AffectedRows(rows, metrics))) => RowMetrics(parse, metrics, rest, rows)
    case Some(Got(Schema(convertible))) => if convertible then Ok(Stream(Opened(rest))) else Err(BadSchema)
    case Some(Got(m)) => Err(NotAllowed(m))
    case Some(NotYet) => Err(EmptyResponse)
  }

  /** The messages and errors of the stream, without the waits. */
  function Reads(events: seq<Event>): seq<Event> {
    if events == [] then []
    else (if events[0].NotYet? then [] else [events[0]]) + Reads(events[1..])
  }

  lemma {:induction false} ReadIsFirst(events: seq<Event>)
    ensures var (first, rest) := Read(events);
      && (first.None? <==> Reads(events) == [])
      && (first.Some? ==> !first.value.NotYet? && Reads(events) == [first.value] + Reads(rest))
  {
    if events != [] && events[0].NotYet? {
      ReadIsFirst(events[1..]);
      assert [] + Reads(events[1..]) == Reads(events[1..]);
    }
  }

  /** The row-count responses that are accepted, with their metrics. */
  predicate RowResponse(parse: Parser, arrived: seq<Event>, rows: nat, metrics: Option<Metrics>) {
    && arrived != [] && arrived[0].Got? && arrived[0].message.AffectedRows? && arrived[0].message.rows == rows
    && match arrived[0].message.metrics
       case Some(text) => |arrived| == 1 && metrics.Some? && metrics == parse(text)
       case None =>
         if |arrived| == 1 then metrics.None?
         else
           && arrived[1].Got? && arrived[1].message.MetricsText?
           && metrics.Some? && metrics == parse(arrived[1].message.text)
  }

  /**
   A row count is accepted exactly alone, with inline metrics, or followed by one
   metrics message; every stream begins with a schema that could be converted.
   */
  lemma OpenExactly(parse: Parser, events: seq<Event>, rows: nat, metrics: Option<Metrics>)
    ensures Open(parse, events) == Ok(Rows(rows, metrics)) <==> RowResponse(parse, Reads(events), rows, metrics)
    ensures Open(parse, events).Ok? && Open(parse, events).output.Stream? <==>
            Reads(events) != [] && Reads(events)[0] == Got(Schema(true))
  {
    ReadIsFirst(events);
    var (first, rest) := Read(events);
    if first.Some? {
      assert Reads(events)[0] == first.value;
      if first.value.Got? && first.value.message.AffectedRows? {
        RowsExactly(parse, first.value.message, rest, rows, metrics);
      }
    }
  }

  /** The row count with its inline metrics is in order. */
  predicate RowsInOrder(parse: Parser, e: Event) {
    && e.Got? && e.message.AffectedRows?
    && (e.message.metrics.Some? ==> parse(e.message.metrics.value).Some?)
  }

  /** Why a response is refused, from the messages that arrived. */
  predicate Refusal(parse: Parser, arrived: seq<Event>, error: OpenError) {
    if arrived == [] then error.EmptyResponse?
    else
      match error
      case EmptyResponse => false
      case BadSchema => arrived[0] == Got(Schema(false))
      case Unreadable(code) =>
        || arrived[0] == Failed(code)
        || (RowsInOrder(parse, arrived[0]) && |arrived| > 1 && arrived[1] == Failed(code))
      case InvalidMetrics(text) =>
        && parse(text).None?
        && arrived[0].Got? && arrived[0].message.AffectedRows?
        && (arrived[0].message.metrics == Some(text)
            || (arrived[0].message.metrics.None? && |arrived| > 1 && arrived[1] == Got(MetricsText(text))))
      case NotAllowed(m) =>
        || ((m.RecordBatch? || m.MetricsText?) && arrived[0] == Got(m))
        || (RowsInOrder(parse, arrived[0]) && |arrived| > 1 && arrived[1] == Got(m)
            && (m.MetricsText? ==> arrived[0].message.metrics.Some?))
  }

  /** Each refusal has the error that its messages call for. */
  lemma RefusedExactly(parse: Parser, events: seq<Event>, error: OpenError)
    ensures Open(parse, events) == Err(error) <==> Refusal(parse, Reads(events), error)
  {
    ReadIsFirst(events);
    var (first, rest) := Read(events);
    if first.Some? {
      assert Reads(events)[0] == first.value;
      if first.value.Got? && first.value.message.AffectedRows? {
        RowsRefused(parse, first.value.message, rest, error);
      }
    }
  }

  lemma RowsRefused(parse: Parser, m: Message, rest: seq<Event>, error: OpenError)
    requires m.AffectedRows?
    ensures RowMetrics(parse, m.metrics, rest, m.rows) == Err(error) <==>
            Refusal(parse, [Got(m)] + Reads(rest), error)
  {
    ReadIsFirst(rest);
    var arrived := [Got(m)] + Reads(rest);
    assert arrived[0] == Got(m);
    assert Read(rest).0.Some? ==> arrived[1] == Read(rest).0.value;
  }

  /**
   From the first message to the consumer: a response opened as a stream reads the
   events after its schema. Under any behaviour the consumer gets record batches
   from the front of these, and once the handle is ready all up to the ending
   event, with the last well-formed metrics before it.
   */
  lemma OpenedStreamDelivers(parse: Parser, events: seq<Event>, actions: seq<Action>)
    requires Open(parse, events).Ok? && Open(parse, events).output.Stream?
    ensures var rest, response := Read(events).1, Open(parse, events).output.response;
      var got, r := Batches(Yielded(parse, response, actions)), Final(parse, response, actions);
      && Reads(events) == [Got(Schema(true))] + Reads(rest)
      && got <= Payloads(rest[..Cut(rest)])
      && (r.ready ==> got == Payloads(rest[..Cut(rest)]) && r.metrics == FinalMetrics(parse, rest))
  {
    ReadIsFirst(events);
    var rest := Read(events).1;
    ConsumerSeesTheResponse(parse, rest, actions, []);
    BatchesAreThePayloads(parse, rest);
    var yielded, expected := Yielded(parse, Opened(rest), actions), Expected(parse, rest);
    BatchesOfPrefix(yielded, expected);
  }

  lemma BatchesOfPrefix(xs: seq<Item>, ys: seq<Item>)
    requires xs <= ys
    ensures Batches(xs) <= Batches(ys)
  {
    BatchesConcat(xs, ys[|xs|..]);
    assert xs + ys[|xs|..] == ys;
  }

  lemma RowsExactly(parse: Parser, m: Message, rest: seq<Event>, rows: nat, metrics: Option<Metrics>)
    requires m.AffectedRows?
    ensures RowMetrics(parse, m.metrics, rest, m.rows) == Ok(Rows(rows, metrics)) <==>
            RowResponse(parse, [Got(m)] + Reads(rest), rows, metrics)
  {
    ReadIsFirst(rest);
    var arrived := [Got(m)] + Reads(rest);
    assert arrived[0] == Got(m);
    assert |arrived| >= 2 ==> arrived[1] == Reads(rest)[0];
  }

  // ---------- The stream object ----------

  /** `StreamWithMetrics` over the generator of the response, with its `OutputMetrics`. */
  class MetricsStream {
    const parse: Parser
    var events: seq<Event>
    var sourceMetrics: Option<Metrics>
    var over: bool
    var metrics: Option<Metrics>
    var ready: bool

    ghost function State(): Response
      reads this
    {
      Response(Source(events, sourceMetrics, over), metrics, ready)
    }

    constructor (parse: Parser, events: seq<Event>)
      ensures this.parse == parse && State() == Opened(events) && Settled(State())
    {
      this.parse := parse;
      this.events, sourceMetrics, over, metrics, ready := events, None, false, None, false;
    }

    /** `poll_next`. */
    method PollNext() returns (polled: Poll)
      requires Settled(State())
      modifies this
      ensures (State(), polled) == AfterPoll(parse, old(State())) && Settled(State())
      ensures ItemOf(polled) + Left(parse, State().source) == Left(parse, old(State()).source)
      ensures old(ready) ==> ready && polled == Ready(None) && metrics == old(metrics)
    {
      StepConserves(parse, State(), Action.PollNext);
      PollConserves(parse, State().source);
      polled := PollGenerator();
      if polled == Ready(None) {
        metrics := sourceMetrics;
        ready := true;
      }
    }

    /** The loop of the generator, run up to its next yield. */
    method PollGenerator() returns (polled: Poll)
      modifies this`events, this`sourceMetrics, this`over
      ensures (State().source, polled) == PollSource(parse, old(State().source))
    {
      while !over && events != []
        invariant metrics == old(metrics) && ready == old(ready)
        invariant PollSource(parse, State().source) == PollSource(parse, old(State().source))
        decreases |events|
      {
        var event := events[0];
        events := events[1..];
        match event
        case NotYet => return Waiting;
        case Failed(code) =>
          over := true;
          return Ready(Some(ReadError(code)));
        case Got(message) =>
          match message
          case RecordBatch(payload) => return Ready(Some(Batch(payload)));
          case MetricsText(text) =>
            var parsed := parse(text);
            if parsed.None? {
              return Ready(Some(BadMetrics(text)));
            }
            sourceMetrics := parsed;
          case _ =>
            over := true;
            return Ready(Some(IllegalMessage(message)));
      }
      over := true;
      polled := Ready(None);
    }

    /** `metrics()`: the current metrics, which the handle then shows too. */
    method CurrentMetrics() returns (m: Option<Metrics>)
      requires Settled(State())
      modifies this`metrics
      ensures State() == Apply(parse, old(State()), ReadMetrics) && Settled(State())
      ensures m == metrics && (old(ready) ==> m == old(metrics))
    {
      metrics := sourceMetrics;
      m := metrics;
    }
  }
}

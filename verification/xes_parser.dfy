/**
 * The XES import (`parseXesFileToCustomLogFormat` and `xesFind` in
 * src/app/services/upload/xes/xes-parser.ts): every trace of a parsed XES
 * log becomes the list of the names of its completed events.
 * The XML parsing before and the stringify after are parameters.
 */
module XesParser {
  import opened Wrappers
  import JsString

  /** A `<string key=... value=...>` attribute (xes.model.ts). */
  datatype XesString = XesString(key: string, value: string)
  /** The `string` field of an event: a list, or a single attribute when there is only one. */
  datatype XesStrings = Many(items: seq<XesString>) | One(item: XesString)
  datatype XesEvent = XesEvent(strings: XesStrings)
  datatype XesTrace = XesTrace(strings: XesStrings, events: seq<XesEvent>)

  /** A trace of the output log (json-log.ts); the optional `order` is never written. */
  datatype JsonTrace = JsonTrace(trace: seq<string>)

  const Lifecycle := "lifecycle:transition"
  const ConceptName := "concept:name"
  const Complete := "complete"

  /** The value of the first attribute with the key. */
  function FindFirst(items: seq<XesString>, key: string): (r: Option<string>)
    ensures r.None? <==> forall i :: 0 <= i < |items| ==> items[i].key != key
    ensures r.Some? ==> exists i :: 0 <= i < |items| && items[i].key == key && items[i].value == r.value
                                    && forall k :: 0 <= k < i ==> items[k].key != key
    decreases |items|
  {
    if |items| == 0 then None
    else if items[0].key == key then Some(items[0].value)
    else
      var r := FindFirst(items[1..], key);
      assert forall i :: 0 <= i < |items[1..]| ==> items[1..][i] == items[i + 1];
      r
  }

  /** `xesFind`: the first matching value of a list, or the value of a single matching attribute. */
  function XesFind(strings: XesStrings, key: string): (r: Option<string>)
    ensures strings.One? ==> r == if strings.item.key == key then Some(strings.item.value) else None
    ensures strings.Many? ==> r == FindFirst(strings.items, key)
  {
    match strings
    case Many(items) => FindFirst(items, key)
    case One(item) => if item.key == key then Some(item.value) else None
  }

  /** Whether an event is kept: no lifecycle attribute, or lifecycle `complete`. */
  predicate Kept(e: XesEvent) {
    var lifecycle := XesFind(e.strings, Lifecycle);
    lifecycle.None? || lifecycle.value == Complete
  }

  /** `trace.event.filter(...)`. */
  function KeptEvents(events: seq<XesEvent>): (r: seq<XesEvent>)
    ensures |r| <= |events|
    ensures forall e :: e in r <==> e in events && Kept(e)
    ensures |events| == 1 ==> r == if Kept(events[0]) then events else []
    decreases |events|
  {
    if |events| == 0 then []
    else
      var rest := KeptEvents(events[1..]);
      assert forall e :: e in events <==> e == events[0] || e in events[1..];
      if Kept(events[0]) then [events[0]] + rest else rest
  }

  /**
   * Filtering distributes over concatenation; with the one-event case above
   * this fixes the kept events, their number and their order.
   */
  lemma {:induction false} KeptEventsAppend(a: seq<XesEvent>, b: seq<XesEvent>)
    ensures KeptEvents(a + b) == KeptEvents(a) + KeptEvents(b)
    decreases |a|
  {
    if |a| > 0 {
      assert (a + b)[0] == a[0];
      assert (a + b)[1..] == a[1..] + b;
      KeptEventsAppend(a[1..], b);
    } else {
      assert a + b == b;
    }
  }

  /** `if (!eventName)`: a missing or empty name. */
  predicate HasName(e: XesEvent) {
    var name := XesFind(e.strings, ConceptName);
    name.Some? && name.value != ""
  }

  function MissingName(i: nat, j: nat): string {
    "Event name is not defined in trace " + JsString.NatToString(i) + " and event " + JsString.NatToString(j) + "!"
  }

  /** The names of the kept events from position `j` on, whitespace replaced; the first nameless one throws. */
  function EventNames(i: nat, kept: seq<XesEvent>, j: nat): (r: Result<seq<string>>)
    requires j <= |kept|
    ensures r.Success? <==> forall k :: j <= k < |kept| ==> HasName(kept[k])
    ensures r.Success? ==> |r.value| == |kept| - j
    ensures r.Success? ==> forall k :: 0 <= k < |r.value| ==>
              r.value[k] == JsString.ReplaceWhitespace(XesFind(kept[j + k].strings, ConceptName).value)
    ensures r.Failure? ==> exists k :: j <= k < |kept| && !HasName(kept[k]) && r.error == MissingName(i, k)
                                       && forall n :: j <= n < k ==> HasName(kept[n])
    decreases |kept| - j
  {
    if j == |kept| then Success([])
    else if !HasName(kept[j]) then Failure(MissingName(i, j))
    else
      var name := JsString.ReplaceWhitespace(XesFind(kept[j].strings, ConceptName).value);
      var later := EventNames(i, kept, j + 1);
      if later.Failure? then Failure(later.error)
      else
        var names := [name] + later.value;
        assert forall k :: 1 <= k < |names| ==> names[k] == later.value[k - 1];
        Success(names)
  }

  /** Every trace from position `i` on, in order; the first failing trace throws. */
  function Traces(traces: seq<XesTrace>, i: nat): (r: Result<seq<JsonTrace>>)
    requires i <= |traces|
    ensures r.Success? ==> |r.value| == |traces| - i
    ensures r.Success? ==> forall k :: 0 <= k < |r.value| ==>
              EventNames(i + k, KeptEvents(traces[i + k].events), 0) == Success(r.value[k].trace)
    ensures r.Failure? <==> exists k :: i <= k < |traces| && EventNames(k, KeptEvents(traces[k].events), 0).Failure?
    ensures r.Failure? ==> exists k :: i <= k < |traces| && EventNames(k, KeptEvents(traces[k].events), 0) == Failure(r.error)
                                       && forall n :: i <= n < k ==> EventNames(n, KeptEvents(traces[n].events), 0).Success?
    decreases |traces| - i
  {
    if i == |traces| then Success([])
    else
      var first := EventNames(i, KeptEvents(traces[i].events), 0);
      if first.Failure? then
        assert EventNames(i, KeptEvents(traces[i].events), 0) == Failure(first.error);
        Failure(first.error)
      else
        var later := Traces(traces, i + 1);
        if later.Failure? then
          LaterFailure(traces, i, later.error);
          Failure(later.error)
        else
          var log := [JsonTrace(first.value)] + later.value;
          AllSucceed(traces, i, later.value);
          assert forall k :: 1 <= k < |log| ==> log[k] == later.value[k - 1];
          Success(log)
  }

  /** A failure after a trace that succeeds is still the first failure counted from that trace. */
  lemma LaterFailure(traces: seq<XesTrace>, i: nat, error: string)
    requires i < |traces| && EventNames(i, KeptEvents(traces[i].events), 0).Success?
    requires exists k :: i + 1 <= k < |traces| && EventNames(k, KeptEvents(traces[k].events), 0) == Failure(error)
                         && forall n :: i + 1 <= n < k ==> EventNames(n, KeptEvents(traces[n].events), 0).Success?
    ensures exists k :: i <= k < |traces| && EventNames(k, KeptEvents(traces[k].events), 0) == Failure(error)
                        && forall n :: i <= n < k ==> EventNames(n, KeptEvents(traces[n].events), 0).Success?
  {
    var k :| i + 1 <= k < |traces| && EventNames(k, KeptEvents(traces[k].events), 0) == Failure(error)
             && forall n :: i + 1 <= n < k ==> EventNames(n, KeptEvents(traces[n].events), 0).Success?;
    assert forall n :: i <= n < k ==> EventNames(n, KeptEvents(traces[n].events), 0).Success?;
  }

  /** No trace from `i` on fails when trace `i` and every later one succeed. */
  lemma AllSucceed(traces: seq<XesTrace>, i: nat, rest: seq<JsonTrace>)
    requires i < |traces| && EventNames(i, KeptEvents(traces[i].events), 0).Success?
    requires |rest| == |traces| - i - 1
    requires forall k :: 0 <= k < |rest| ==> EventNames(i + 1 + k, KeptEvents(traces[i + 1 + k].events), 0) == Success(rest[k].trace)
    ensures forall k :: i <= k < |traces| ==> EventNames(k, KeptEvents(traces[k].events), 0).Success?
  {
    forall k | i < k < |traces|
      ensures EventNames(k, KeptEvents(traces[k].events), 0).Success?
    {
      assert EventNames(i + 1 + (k - i - 1), KeptEvents(traces[i + 1 + (k - i - 1)].events), 0) == Success(rest[k - i - 1].trace);
    }
  }

  /** `parseXesFileToCustomLogFormat` after `parseXml`. */
  function ParseXes(traces: seq<XesTrace>, stringify: seq<JsonTrace> -> string): (r: Result<string>)
    ensures r.Success? <==> Traces(traces, 0).Success?
  {
    match Traces(traces, 0)
    case Failure(e) => Failure(e)
    case Success(log) => Success(stringify(log))
  }

  /** One output trace per input trace, each as long as its kept events, each name whitespace-free. */
  lemma TraceShape(traces: seq<XesTrace>, k: int, n: int)
    requires Traces(traces, 0).Success?
    requires 0 <= k < |traces|
    ensures var log := Traces(traces, 0).value;
            |log| == |traces| && |log[k].trace| == |KeptEvents(traces[k].events)|
    ensures var log := Traces(traces, 0).value;
            0 <= n < |log[k].trace| ==> forall c :: c in log[k].trace[n] ==> !JsString.IsWhitespace(c)
  {
    var log := Traces(traces, 0).value;
    assert EventNames(k, KeptEvents(traces[k].events), 0) == Success(log[k].trace);
  }

  /** A trace whose events are all completed, all named, keeps every event. */
  lemma CompletedTraceKeepsAll(t: XesTrace, i: nat)
    requires forall e :: e in t.events ==> Kept(e) && HasName(e)
    ensures EventNames(i, KeptEvents(t.events), 0).Success?
    ensures KeptEvents(t.events) == t.events
  {
    KeptEventsAllKept(t.events);
  }

  lemma {:induction false} KeptEventsAllKept(events: seq<XesEvent>)
    requires forall e :: e in events ==> Kept(e)
    ensures KeptEvents(events) == events
    decreases |events|
  {
    if |events| > 0 {
      assert forall e :: e in events[1..] ==> e in events;
      KeptEventsAllKept(events[1..]);
    }
  }
}

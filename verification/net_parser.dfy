/**
 * Validation of a Petri net read from JSON (`parsePetriNet` in
 * src/app/services/parser/parser.service.ts).
 *
 * `JSON.parse` itself is outside the model: its result arrives as a
 * `JsonParse`. Warnings shown to the user are not modelled; errors are the
 * accumulated set of messages.
 */
module NetParser {
  import opened Wrappers
  import opened Nets
  import JsString

  /**
   * A field read with `Object.entries` after a `typeof field === 'object'`
   * test: missing or not an object, `null` (which passes the test and makes
   * `Object.entries` throw a TypeError), or an object's entries.
   */
  datatype ObjectField = NotAnObject | NullObject | Entries(entries: seq<(string, int)>)

  /** The fields the parser reads from the parsed object. */
  datatype RawNet = RawNet(
    transitions: Option<seq<string>>,   // None: missing or not an array
    places: Option<seq<string>>,        // None: missing or not an array
    arcs: ObjectField,
    marking: ObjectField)

  /**
   * The result of `JSON.parse(content)`. A document that is just `null`
   * makes the first field access throw a TypeError; any other non-object
   * has no `transitions` and arrives as a `Parsed` without them.
   */
  datatype JsonParse = SyntaxError(name: string, message: string) | NullDocument | Parsed(content: RawNet)

  /** A net, `null`, the parser's own exception, or a TypeError escaping it. */
  datatype NetOutcome = NetParsed(net: PetriNet) | NoNet | Thrown(message: string) | TypeErrorThrown

  datatype ParseResult = ParseResult(outcome: NetOutcome, errors: set<string>)

  const TransitionsMissing := "The Petri net JSON file must contain a 'transitions' string array attribute"
  const PlacesMissing := "The Petri net JSON file must contain a 'places' string array attribute"
  const NoEventsAndArcs := "Petri net does not contain events and arcs"

  function NotJson(name: string, message: string): string {
    "The provided Petri net file is not a JSON. [" + name + "]: " + message
  }

  function InvalidArc(source: string, target: string): string {
    "An arc between " + source + " and " + target + " is invalid"
  }

  ghost predicate DistinctIds(ids: seq<string>) {
    forall i, j :: 0 <= i < j < |ids| ==> ids[i] != ids[j]
  }

  /** `addTransition` for every listed id; a duplicate id is ignored. */
  function AddTransitions(ts: seq<Transition>, ids: seq<string>): (r: seq<Transition>)
    requires DistinctIds(TransitionIds(ts))
    requires forall i :: 0 <= i < |ts| ==> ts[i].transitionLabel == ts[i].id
    ensures DistinctIds(TransitionIds(r))
    ensures forall i :: 0 <= i < |r| ==> r[i].transitionLabel == r[i].id
    ensures forall id :: id in TransitionIds(r) <==> id in TransitionIds(ts) || id in ids
    ensures DistinctIds(TransitionIds(ts) + ids) ==> TransitionIds(r) == TransitionIds(ts) + ids
    decreases |ids|
  {
    if |ids| == 0 then ts
    else if ids[0] in TransitionIds(ts) then
      var k :| 0 <= k < |TransitionIds(ts)| && TransitionIds(ts)[k] == ids[0];
      assert (TransitionIds(ts) + ids)[k] == (TransitionIds(ts) + ids)[|ts|];
      AddTransitions(ts, ids[1..])
    else
      var ts' := ts + [Transition(ids[0], ids[0])];
      assert TransitionIds(ts') == TransitionIds(ts) + [ids[0]];
      assert TransitionIds(ts) + ids == TransitionIds(ts') + ids[1..];
      AddTransitions(ts', ids[1..])
  }

  /** `addPlace` with marking 0 for every listed id; a duplicate id is ignored. */
  function AddPlaces(ps: seq<Place>, ids: seq<string>): (r: seq<Place>)
    requires DistinctIds(PlaceIds(ps))
    requires forall i :: 0 <= i < |ps| ==> ps[i].marking == 0
    ensures DistinctIds(PlaceIds(r))
    ensures forall i :: 0 <= i < |r| ==> r[i].marking == 0
    ensures forall id :: id in PlaceIds(r) <==> id in PlaceIds(ps) || id in ids
    ensures DistinctIds(PlaceIds(ps) + ids) ==> PlaceIds(r) == PlaceIds(ps) + ids
    decreases |ids|
  {
    if |ids| == 0 then ps
    else if ids[0] in PlaceIds(ps) then
      var k :| 0 <= k < |PlaceIds(ps)| && PlaceIds(ps)[k] == ids[0];
      assert (PlaceIds(ps) + ids)[k] == (PlaceIds(ps) + ids)[|ps|];
      AddPlaces(ps, ids[1..])
    else
      var ps' := ps + [Place(ids[0], 0)];
      assert PlaceIds(ps') == PlaceIds(ps) + [ids[0]];
      assert PlaceIds(ps) + ids == PlaceIds(ps') + ids[1..];
      AddPlaces(ps', ids[1..])
  }

  datatype Kind = TransitionNode | PlaceNode

  /** The kind of the element an arc endpoint names, transitions searched first. */
  function FindElement(ts: seq<Transition>, ps: seq<Place>, id: string): (k: Option<Kind>)
    ensures k == Some(TransitionNode) <==> id in TransitionIds(ts)
    ensures k == Some(PlaceNode) <==> id !in TransitionIds(ts) && id in PlaceIds(ps)
  {
    if id in TransitionIds(ts) then Some(TransitionNode)
    else if id in PlaceIds(ps) then Some(PlaceNode)
    else None
  }

  /** An arc joins a transition and a place, in either direction. */
  ghost predicate Bipartite(ts: seq<Transition>, ps: seq<Place>, a: Arc) {
    || (a.source in TransitionIds(ts) && a.target !in TransitionIds(ts) && a.target in PlaceIds(ps))
    || (a.target in TransitionIds(ts) && a.source !in TransitionIds(ts) && a.source in PlaceIds(ps))
  }

  ghost predicate NoDuplicateArcs(arcs: seq<Arc>) {
    forall i, j :: 0 <= i < j < |arcs| ==> arcs[i].source != arcs[j].source || arcs[i].target != arcs[j].target
  }

  function HasArc(arcs: seq<Arc>, source: string, target: string): (b: bool)
    ensures b <==> exists i :: 0 <= i < |arcs| && arcs[i].source == source && arcs[i].target == target
  {
    if |arcs| == 0 then false
    else
      assert forall i :: 1 <= i < |arcs| ==> arcs[i] == arcs[1..][i - 1];
      (arcs[0].source == source && arcs[0].target == target) || HasArc(arcs[1..], source, target)
  }

  /** What one arc entry does. */
  datatype ArcStep = Skip | Add(arc: Arc) | Throw(message: string)

  /** The key splits into two ids of which at least one names no element: the entry throws. */
  predicate UnknownEndpoint(ts: seq<Transition>, ps: seq<Place>, key: string) {
    var ids := JsString.Split(key, ',');
    |ids| == 2 && (FindElement(ts, ps, ids[0]).None? || FindElement(ts, ps, ids[1]).None?)
  }

  /**
   * One arc entry: a key that does not split into two ids and an arc between
   * elements of one kind are skipped, an unknown endpoint throws, and
   * `addArc` ignores a second arc between the same endpoints.
   */
  function ParseArc(ts: seq<Transition>, ps: seq<Place>, entry: (string, int), acc: seq<Arc>): (step: ArcStep)
    ensures step.Add? ==> Bipartite(ts, ps, step.arc) && !HasArc(acc, step.arc.source, step.arc.target)
                          && JsString.Split(entry.0, ',') == [step.arc.source, step.arc.target]
                          && step.arc.weight == entry.1
    ensures var ids := JsString.Split(entry.0, ',');
            |ids| == 2 && Bipartite(ts, ps, Arc(ids[0], ids[1], entry.1)) && !HasArc(acc, ids[0], ids[1]) ==>
              step == Add(Arc(ids[0], ids[1], entry.1))
    ensures step.Throw? <==> UnknownEndpoint(ts, ps, entry.0)
    ensures step.Throw? ==> step.message == InvalidArc(JsString.Split(entry.0, ',')[0], JsString.Split(entry.0, ',')[1])
  {
    var ids := JsString.Split(entry.0, ',');
    if |ids| != 2 then Skip
    else
      var source := FindElement(ts, ps, ids[0]);
      var target := FindElement(ts, ps, ids[1]);
      if source.None? || target.None? then Throw(InvalidArc(ids[0], ids[1]))
      else if source == target then Skip
      else if HasArc(acc, ids[0], ids[1]) then Skip
      else
        assert ids == [ids[0], ids[1]];
        Add(Arc(ids[0], ids[1], entry.1))
  }

  /**
   * The arcs the entries add to `acc` in order, an entry that would throw
   * passed over: what `ParseArcs` returns when nothing throws.
   */
  ghost function Accumulate(ts: seq<Transition>, ps: seq<Place>, entries: seq<(string, int)>, acc: seq<Arc>): seq<Arc>
    decreases |entries|
  {
    if |entries| == 0 then acc
    else
      var next := match ParseArc(ts, ps, entries[0], acc)
        case Add(arc) => acc + [arc]
        case _ => acc;
      Accumulate(ts, ps, entries[1..], next)
  }

  /** The arc entries in order, stopping at the first that throws. */
  function ParseArcs(ts: seq<Transition>, ps: seq<Place>, entries: seq<(string, int)>, acc: seq<Arc>): (r: Result<seq<Arc>>)
    requires forall a :: a in acc ==> Bipartite(ts, ps, a)
    requires NoDuplicateArcs(acc)
    ensures r.Success? ==> forall a :: a in r.value ==> Bipartite(ts, ps, a)
    ensures r.Success? ==> NoDuplicateArcs(r.value)
    ensures r.Success? ==> |acc| <= |r.value| && r.value[..|acc|] == acc
    ensures r.Success? ==> r.value == Accumulate(ts, ps, entries, acc)
    ensures r.Failure? <==> exists i :: 0 <= i < |entries| && UnknownEndpoint(ts, ps, entries[i].0)
    ensures r.Failure? ==>
              exists i :: 0 <= i < |entries| && UnknownEndpoint(ts, ps, entries[i].0)
                          && (forall k :: 0 <= k < i ==> !UnknownEndpoint(ts, ps, entries[k].0))
                          && r.error == InvalidArc(JsString.Split(entries[i].0, ',')[0], JsString.Split(entries[i].0, ',')[1])
    decreases |entries|
  {
    if |entries| == 0 then Success(acc)
    else
      assert forall i :: 1 <= i < |entries| ==> entries[i] == entries[1..][i - 1];
      match ParseArc(ts, ps, entries[0], acc)
      case Throw(message) => Failure(message)
      case Skip => ParseArcs(ts, ps, entries[1..], acc)
      case Add(arc) =>
        var acc' := acc + [arc];
        var r := ParseArcs(ts, ps, entries[1..], acc');
        assert r.Success? ==> r.value[..|acc|] == r.value[..|acc'|][..|acc|];
        r
  }

  /** `places.find(pp => pp.id === id)` as an index, or -1. */
  function FindPlaceIndex(ps: seq<Place>, id: string): (i: int)
    ensures -1 <= i < |ps|
    ensures i == -1 <==> id !in PlaceIds(ps)
    ensures i >= 0 ==> ps[i].id == id && forall k :: 0 <= k < i ==> ps[k].id != id
  {
    if |ps| == 0 then -1
    else if ps[0].id == id then 0
    else
      var rest := ps[1..];
      var i := FindPlaceIndex(rest, id);
      PlaceIdsTail(ps, id);
      assert forall k :: 1 <= k < |ps| ==> ps[k] == rest[k - 1];
      if i < 0 then -1 else i + 1
  }

  /** The marking entries in order: an unknown place or a negative value is ignored. */
  function ApplyMarking(ps: seq<Place>, entries: seq<(string, int)>): (r: seq<Place>)
    ensures PlaceIds(r) == PlaceIds(ps)
    ensures forall i :: 0 <= i < |ps| && ps[i].marking >= 0 ==> r[i].marking >= 0
    ensures forall i :: 0 <= i < |ps| && r[i].marking != ps[i].marking ==>
              exists e :: e in entries && e.0 == ps[i].id && e.1 == r[i].marking
    decreases |entries|
  {
    if |entries| == 0 then ps
    else
      var (id, value) := entries[0];
      var i := FindPlaceIndex(ps, id);
      var ps' := if i < 0 || value < 0 then ps else ps[i := Place(id, value)];
      assert PlaceIds(ps') == PlaceIds(ps);
      ApplyMarking(ps', entries[1..])
  }

  /** The properties every net the parser returns has. */
  ghost predicate WellFormed(net: PetriNet) {
    && DistinctIds(TransitionIds(net.transitions))
    && DistinctIds(PlaceIds(net.places))
    && (forall i :: 0 <= i < |net.transitions| ==> net.transitions[i].transitionLabel == net.transitions[i].id)
    && (forall i :: 0 <= i < |net.places| ==> net.places[i].marking >= 0)
    && (forall a :: a in net.arcs ==> Bipartite(net.transitions, net.places, a))
    && NoDuplicateArcs(net.arcs)
    && (|net.arcs| > 0 || |net.transitions| > 0)
  }

  /** The transitions the parser builds from the listed ids. */
  function ParsedTransitions(ids: seq<string>): (ts: seq<Transition>)
    ensures DistinctIds(TransitionIds(ts))
    ensures forall i :: 0 <= i < |ts| ==> ts[i].transitionLabel == ts[i].id
    ensures forall id :: id in TransitionIds(ts) <==> id in ids
  {
    AddTransitions([], ids)
  }

  /** The places, all unmarked, the parser builds from the listed ids. */
  function ParsedPlaces(ids: seq<string>): (ps: seq<Place>)
    ensures DistinctIds(PlaceIds(ps))
    ensures forall i :: 0 <= i < |ps| ==> ps[i].marking == 0
    ensures forall id :: id in PlaceIds(ps) <==> id in ids
  {
    AddPlaces([], ids)
  }

  /** The arcs of the parsed object: none without an `arcs` object. */
  function ParsedArcs(content: RawNet): Result<seq<Arc>>
    requires content.transitions.Some? && content.places.Some?
  {
    if content.arcs.Entries? then
      ParseArcs(ParsedTransitions(content.transitions.value), ParsedPlaces(content.places.value), content.arcs.entries, [])
    else Success([])
  }

  /** `parsePetriNet` after `JSON.parse`. */
  function ParsePetriNet(input: JsonParse, errors: set<string>): (r: ParseResult)
    ensures input.SyntaxError? ==> r == ParseResult(NoNet, errors + {NotJson(input.name, input.message)})
    ensures input.NullDocument? ==> r == ParseResult(TypeErrorThrown, errors)
    ensures input.Parsed? && input.content.transitions.None? ==> r == ParseResult(NoNet, errors + {TransitionsMissing})
    ensures input.Parsed? && input.content.transitions.Some? && input.content.places.None? ==>
              r == ParseResult(NoNet, errors + {PlacesMissing})
    ensures r.outcome.Thrown? <==>
              input.Parsed? && input.content.transitions.Some? && input.content.places.Some?
              && !input.content.arcs.NullObject? && ParsedArcs(input.content).Failure?
    ensures r.outcome.Thrown? ==> r.outcome.message == ParsedArcs(input.content).error && r.errors == errors + {r.outcome.message}
    ensures r.outcome.TypeErrorThrown? <==>
              || input.NullDocument?
              || (input.Parsed? && input.content.transitions.Some? && input.content.places.Some?
                  && (input.content.arcs.NullObject?
                      || (ParsedArcs(input.content).Success? && input.content.marking.NullObject?)))
    ensures r.outcome.TypeErrorThrown? ==> r.errors == errors
    ensures input.Parsed? && input.content.transitions.Some? && input.content.places.Some? && r.outcome.NoNet? ==>
              r.errors == errors + {NoEventsAndArcs}
    ensures r.outcome.NetParsed? ==> r.errors == errors && WellFormed(r.outcome.net)
    ensures r.outcome.NetParsed? ==>
              var content := input.content;
              var ps := ParsedPlaces(content.places.value);
              && r.outcome.net.transitions == ParsedTransitions(content.transitions.value)
              && r.outcome.net.arcs == ParsedArcs(content).value
              && r.outcome.net.places == if content.marking.Entries? then ApplyMarking(ps, content.marking.entries) else ps
    ensures r.outcome.NetParsed? ==>
              forall id :: id in TransitionIds(r.outcome.net.transitions) <==> id in input.content.transitions.value
    ensures r.outcome.NetParsed? ==>
              forall id :: id in PlaceIds(r.outcome.net.places) <==> id in input.content.places.value
  {
    match input
    case SyntaxError(name, message) => ParseResult(NoNet, errors + {NotJson(name, message)})
    case NullDocument => ParseResult(TypeErrorThrown, errors)
    case Parsed(content) =>
      if content.transitions.None? then ParseResult(NoNet, errors + {TransitionsMissing})
      else
        var ts := ParsedTransitions(content.transitions.value);
        if content.places.None? then ParseResult(NoNet, errors + {PlacesMissing})
        else
          var ps := ParsedPlaces(content.places.value);
          if content.arcs.NullObject? then ParseResult(TypeErrorThrown, errors)
          else
            var arcs := ParsedArcs(content);
            if arcs.Failure? then ParseResult(Thrown(arcs.error), errors + {arcs.error})
            else if content.marking.NullObject? then ParseResult(TypeErrorThrown, errors)
            else
              var marked := if content.marking.Entries? then ApplyMarking(ps, content.marking.entries) else ps;
              assert PlaceIds(marked) == PlaceIds(ps);
              if |arcs.value| == 0 && |ts| == 0 then
                ParseResult(NoNet, errors + {NoEventsAndArcs})
              else
                ParseResult(NetParsed(PetriNet(ts, marked, arcs.value)), errors)
  }

  /** An arc entry naming an id that is neither a listed transition nor a listed place makes the parser throw. */
  lemma UnknownEndpointThrows(content: RawNet, errors: set<string>, i: int)
    requires content.transitions.Some? && content.places.Some? && content.arcs.Entries?
    requires 0 <= i < |content.arcs.entries|
    requires var ids := JsString.Split(content.arcs.entries[i].0, ',');
             |ids| == 2 && ids[0] !in content.transitions.value && ids[0] !in content.places.value
    ensures ParsePetriNet(Parsed(content), errors).outcome.Thrown?
  {
    var ts := ParsedTransitions(content.transitions.value);
    var ps := ParsedPlaces(content.places.value);
    assert UnknownEndpoint(ts, ps, content.arcs.entries[i].0);
  }

  /** A net whose arcs all parse and which has a transition is accepted as built, recording nothing. */
  lemma ParseAccepts(content: RawNet, errors: set<string>, arcs: seq<Arc>)
    requires content.transitions.Some? && content.places.Some?
    requires |content.transitions.value| > 0
    requires !content.arcs.NullObject? && !content.marking.NullObject?
    requires ParsedArcs(content) == Success(arcs)
    ensures var ts := ParsedTransitions(content.transitions.value);
            var ps := ParsedPlaces(content.places.value);
            var marked := if content.marking.Entries? then ApplyMarking(ps, content.marking.entries) else ps;
            ParsePetriNet(Parsed(content), errors) == ParseResult(NetParsed(PetriNet(ts, marked, arcs)), errors)
  {
    var ts := ParsedTransitions(content.transitions.value);
    assert content.transitions.value[0] in TransitionIds(ts);
  }
}

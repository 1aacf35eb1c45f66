/**
 * The PNML import (`getRunTextFromPnml` in
 * src/app/services/upload/pnml/pnml-to-run.fn.ts): a parsed PNML page
 * becomes the JSON net object, with named transitions renamed to their
 * names (whitespace replaced by `_`) and arcs re-keyed accordingly.
 * The XML parsing before and the stringify after are parameters.
 */
module PnmlToRun {
  import opened Wrappers
  import opened Nets
  import JsString
  import Dicts

  datatype PnmlTransition = PnmlTransition(id: string, name: Option<string>)
  datatype PnmlPlace = PnmlPlace(id: string, initialMarking: Option<int>)
  datatype PnmlArc = PnmlArc(source: string, target: string, inscription: Option<int>)
  datatype PnmlPage = PnmlPage(transition: seq<PnmlTransition>, place: seq<PnmlPlace>, arc: seq<PnmlArc>)
  /** `pnml.net`: its elements directly, or wrapped in a `page`. */
  datatype PnmlNet = PnmlNet(page: Option<PnmlPage>, elements: PnmlPage)

  /** `pnml.net.page ?? pnml.net`. */
  function PageOf(net: PnmlNet): (p: PnmlPage)
    ensures net.page.Some? ==> p == net.page.value
    ensures net.page.None? ==> p == net.elements
  {
    net.page.GetOr(net.elements)
  }

  /** `if (name)`: a present, non-empty name. */
  predicate Named(t: PnmlTransition) {
    t.name.Some? && t.name.value != ""
  }

  function TransitionId(t: PnmlTransition): string { t.id }

  /** The label a named transition gets: its name with every whitespace character replaced by `_`. */
  function NameLabel(t: PnmlTransition): string {
    if t.name.Some? then JsString.ReplaceWhitespace(t.name.value) else t.id
  }

  /** The listed name of a transition. */
  function TransitionEntry(t: PnmlTransition): string {
    if Named(t) then NameLabel(t) else t.id
  }

  /** `idToLabelMap`: the id of every named transition to its label, the last such transition winning. */
  function LabelMap(ts: seq<PnmlTransition>): (m: map<string, string>)
    ensures forall id :: id in m <==> exists i :: 0 <= i < |ts| && Named(ts[i]) && ts[i].id == id
    ensures forall i :: 0 <= i < |ts| && Named(ts[i]) && Dicts.IsLastWrite(ts, Named, TransitionId, i) ==>
              m[ts[i].id] == JsString.ReplaceWhitespace(ts[i].name.value)
  {
    Dicts.Collect(ts, Named, TransitionId, NameLabel)
  }

  /** `idToLabelMap.get(id) ?? id`. */
  function Translate(labels: map<string, string>, id: string): string {
    if id in labels then labels[id] else id
  }

  function PlaceId(p: PnmlPlace): string { p.id }
  /** `place.initialMarking?.text ?? 0`. */
  function MarkingOf(p: PnmlPlace): int { p.initialMarking.GetOr(0) }
  predicate Marked(p: PnmlPlace) { MarkingOf(p) > 0 }

  /** `arc?.inscription?.text ?? 1`: an inscription of 0 is kept. */
  function WeightOf(a: PnmlArc): int { a.inscription.GetOr(1) }

  /** The assignment each arc makes to the `arcs` object, endpoints translated. */
  function ArcEntries(arcs: seq<PnmlArc>, labels: map<string, string>): (es: seq<(string, int)>)
    ensures |es| == |arcs|
    ensures forall i :: 0 <= i < |arcs| ==>
              es[i] == (ArcKey(Translate(labels, arcs[i].source), Translate(labels, arcs[i].target)), WeightOf(arcs[i]))
  {
    seq(|arcs|, i requires 0 <= i < |arcs| =>
      (ArcKey(Translate(labels, arcs[i].source), Translate(labels, arcs[i].target)), WeightOf(arcs[i])))
  }

  /** The `transitions` list: each transition's label if it is named, its id otherwise. */
  function TransitionList(ts: seq<PnmlTransition>): (r: seq<string>)
    ensures |r| == |ts|
    ensures forall i :: 0 <= i < |ts| ==>
              r[i] == if Named(ts[i]) then JsString.ReplaceWhitespace(ts[i].name.value) else ts[i].id
  {
    seq(|ts|, i requires 0 <= i < |ts| => TransitionEntry(ts[i]))
  }

  /** The `marking` object: the places with a positive initial marking, the last such place winning. */
  function MarkingObject(ps: seq<PnmlPlace>): (m: map<string, int>)
    ensures forall id :: id in m <==> exists i :: 0 <= i < |ps| && Marked(ps[i]) && ps[i].id == id
    ensures forall i :: 0 <= i < |ps| && Marked(ps[i]) && Dicts.IsLastWrite(ps, Marked, PlaceId, i) ==>
              m[ps[i].id] == MarkingOf(ps[i])
  {
    Dicts.Collect(ps, Marked, PlaceId, MarkingOf)
  }

  /** The `arcs` object, present once any arc has been written. */
  function ArcsObject(page: PnmlPage): (r: Option<map<string, int>>)
    ensures r.None? <==> |page.arc| == 0
    ensures r.Some? ==> r.value == Dicts.FromEntries(ArcEntries(page.arc, LabelMap(page.transition)))
  {
    var es := ArcEntries(page.arc, LabelMap(page.transition));
    var arcs := Dicts.FromEntries(es);
    if |page.arc| == 0 then None
    else
      assert es[0].0 in arcs;
      Some(arcs)
  }

  /** The net object built from a page. */
  function NetObjectFromPage(page: PnmlPage): (j: JsonPetriNet)
    ensures j.transitions == TransitionList(page.transition)
    ensures |j.places| == |page.place| && forall i :: 0 <= i < |page.place| ==> j.places[i] == page.place[i].id
    ensures j.marking.Some? <==> exists i :: 0 <= i < |page.place| && Marked(page.place[i])
    ensures j.marking.Some? ==> j.marking.value == MarkingObject(page.place)
    ensures j.arcs == ArcsObject(page)
  {
    var places := seq(|page.place|, i requires 0 <= i < |page.place| => page.place[i].id);
    var marking := MarkingObject(page.place);
    assert forall i :: 0 <= i < |page.place| && Marked(page.place[i]) ==> page.place[i].id in marking;
    JsonPetriNet(TransitionList(page.transition), places, NonEmpty(marking), ArcsObject(page))
  }

  /** `getRunTextFromPnml` after `parseXml`: the text is the stringified net object of the chosen page. */
  function RunTextFromPnml(net: PnmlNet, stringify: JsonPetriNet -> string): string {
    stringify(NetObjectFromPage(PageOf(net)))
  }

  /** A page without named transitions keeps every id as it is, in the transitions and in the arc keys. */
  lemma UnnamedKeepsIds(page: PnmlPage)
    requires forall i :: 0 <= i < |page.transition| ==> !Named(page.transition[i])
    ensures var j := NetObjectFromPage(page);
            && (forall i :: 0 <= i < |page.transition| ==> j.transitions[i] == page.transition[i].id)
            && (j.arcs.Some? ==> forall k :: k in j.arcs.value <==>
                  exists i :: 0 <= i < |page.arc| && k == ArcKey(page.arc[i].source, page.arc[i].target))
  {
    var labels := LabelMap(page.transition);
    assert labels == map[];
    assert forall i :: 0 <= i < |page.transition| ==> TransitionList(page.transition)[i] == page.transition[i].id;
    var es := ArcEntries(page.arc, labels);
    assert forall i :: 0 <= i < |page.arc| ==> es[i].0 == ArcKey(page.arc[i].source, page.arc[i].target);
  }

  /** An arc from or to a named transition is keyed with that transition's label, not its id. */
  lemma NamedEndpointsTranslated(page: PnmlPage, a: int, t: int)
    requires 0 <= a < |page.arc| && 0 <= t < |page.transition|
    requires Named(page.transition[t]) && Dicts.IsLastWrite(page.transition, Named, TransitionId, t)
    requires page.arc[a].source == page.transition[t].id
    ensures var j := NetObjectFromPage(page);
            && j.arcs.Some?
            && ArcKey(JsString.ReplaceWhitespace(page.transition[t].name.value),
                      Translate(LabelMap(page.transition), page.arc[a].target)) in j.arcs.value
  {
    var labels := LabelMap(page.transition);
    assert labels[page.transition[t].id] == NameLabel(page.transition[t]);
    var es := ArcEntries(page.arc, labels);
    assert es[a].0 in Dicts.FromEntries(es);
  }

  /** No label of a named transition contains whitespace. */
  lemma LabelsHaveNoWhitespace(page: PnmlPage, i: int)
    requires 0 <= i < |page.transition| && Named(page.transition[i])
    ensures forall k :: 0 <= k < |NetObjectFromPage(page).transitions[i]| ==>
              !JsString.IsWhitespace(NetObjectFromPage(page).transitions[i][k])
  {
  }
}

/**
 * The in-memory Petri net and its JSON wire form.
 *
 * The JSON form lists transition ids and place ids, an optional marking
 * object keyed by place id and an optional arcs object keyed by
 * `"source,target"`. Ids never contain a comma, so an arc key splits back
 * into its two endpoints.
 */
module Nets {
  import opened Wrappers
  import JsString

  datatype Place = Place(id: string, marking: int)
  datatype Transition = Transition(id: string, transitionLabel: string)
  datatype Arc = Arc(source: string, target: string, weight: int)

  datatype PetriNet = PetriNet(transitions: seq<Transition>, places: seq<Place>, arcs: seq<Arc>)

  /** The serialisable object; an absent `marking` or `arcs` is `None`. */
  datatype JsonPetriNet = JsonPetriNet(
    transitions: seq<string>,
    places: seq<string>,
    marking: Option<map<string, int>>,
    arcs: Option<map<string, int>>)

  /** The arc key `${source},${target}`. */
  function ArcKey(source: string, target: string): string {
    source + "," + target
  }

  predicate CommaFree(id: string) {
    ',' !in id
  }

  /** An optional JSON object that exists only once something has been written to it. */
  function NonEmpty<K, V>(m: map<K, V>): (r: Option<map<K, V>>)
    ensures r.None? <==> m == map[]
    ensures r.Some? ==> r.value == m
  {
    if m == map[] then None else Some(m)
  }

  function TransitionIds(ts: seq<Transition>): (ids: seq<string>)
    ensures |ids| == |ts| && forall i :: 0 <= i < |ts| ==> ids[i] == ts[i].id
  {
    seq(|ts|, i requires 0 <= i < |ts| => ts[i].id)
  }

  function PlaceIds(ps: seq<Place>): (ids: seq<string>)
    ensures |ids| == |ps| && forall i :: 0 <= i < |ps| ==> ids[i] == ps[i].id
  {
    seq(|ps|, i requires 0 <= i < |ps| => ps[i].id)
  }

  /** Past a first place with another id, the id is listed exactly when the rest lists it. */
  lemma PlaceIdsTail(ps: seq<Place>, id: string)
    requires |ps| > 0 && ps[0].id != id
    ensures id in PlaceIds(ps) <==> id in PlaceIds(ps[1..])
  {
    assert PlaceIds(ps) == [ps[0].id] + PlaceIds(ps[1..]);
  }

  lemma ArcKeySplits(source: string, target: string)
    requires CommaFree(source) && CommaFree(target)
    ensures JsString.Split(ArcKey(source, target), ',') == [source, target]
  {
    JsString.SplitPair(source, target, ',');
  }
}

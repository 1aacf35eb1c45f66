/**
 * Projection of a Petri net onto its JSON object, and the text built
 * from it (src/app/services/parser/net-to-text.func.ts).
 */
module NetToText {
  import opened Wrappers
  import opened Nets
  import Dicts

  function IsMarked(p: Place): bool { p.marking > 0 }
  function PlaceId(p: Place): string { p.id }
  function PlaceMarking(p: Place): int { p.marking }
  function Always(a: Arc): bool { true }
  function KeyOf(a: Arc): string { ArcKey(a.source, a.target) }
  function WeightOf(a: Arc): int { a.weight }

  /** The `marking` object: exactly the places with a positive marking, the last such place winning. */
  function MarkingObject(places: seq<Place>): (m: map<string, int>)
    ensures forall id :: id in m <==> exists i :: 0 <= i < |places| && places[i].marking > 0 && places[i].id == id
    ensures forall i :: 0 <= i < |places| && places[i].marking > 0 && LastMarkedWithId(places, i) ==>
              m[places[i].id] == places[i].marking
  {
    var m := Dicts.Collect(places, IsMarked, PlaceId, PlaceMarking);
    assert forall i :: 0 <= i < |places| && places[i].marking > 0 && LastMarkedWithId(places, i) ==>
             Dicts.IsLastWrite(places, IsMarked, PlaceId, i);
    m
  }

  /** The `arcs` object: one key per distinct pair of endpoints, the last arc's weight winning. */
  function ArcsObject(arcs: seq<Arc>): (m: map<string, int>)
    ensures forall k :: k in m <==> exists i :: 0 <= i < |arcs| && KeyOf(arcs[i]) == k
    ensures forall i :: 0 <= i < |arcs| && LastArcWithKey(arcs, i) ==>
              m[KeyOf(arcs[i])] == arcs[i].weight
  {
    var m := Dicts.Collect(arcs, Always, KeyOf, WeightOf);
    forall i | 0 <= i < |arcs| && LastArcWithKey(arcs, i)
      ensures m[KeyOf(arcs[i])] == arcs[i].weight
    {
      LastArcIsLastWrite(arcs, i);
    }
    m
  }

  lemma LastArcIsLastWrite(arcs: seq<Arc>, i: int)
    requires 0 <= i < |arcs| && LastArcWithKey(arcs, i)
    ensures Dicts.IsLastWrite(arcs, Always, KeyOf, i)
    ensures Dicts.Collect(arcs, Always, KeyOf, WeightOf)[KeyOf(arcs[i])] == arcs[i].weight
  {
    assert Always(arcs[i]);
  }

  /** `generateJsonObjectFromNet`. */
  function JsonObjectFromNet(net: PetriNet): (j: JsonPetriNet)
    ensures j.transitions == TransitionIds(net.transitions)
    ensures j.places == PlaceIds(net.places)
    ensures j.marking.Some? <==> exists i :: 0 <= i < |net.places| && net.places[i].marking > 0
    ensures j.marking.Some? ==> j.marking.value == MarkingObject(net.places)
    ensures j.arcs.None? <==> |net.arcs| == 0
    ensures j.arcs.Some? ==> j.arcs.value == ArcsObject(net.arcs)
  {
    var marking := MarkingObject(net.places);
    var arcs := ArcsObject(net.arcs);
    assert |net.arcs| > 0 ==> ArcKey(net.arcs[0].source, net.arcs[0].target) in arcs;
    assert forall i :: 0 <= i < |net.places| && net.places[i].marking > 0 ==> net.places[i].id in marking;
    JsonPetriNet(TransitionIds(net.transitions), PlaceIds(net.places), NonEmpty(marking), NonEmpty(arcs))
  }

  /** A projected `marking` object only ever holds positive values. */
  lemma ProjectedMarkingsPositive(net: PetriNet)
    ensures var m := JsonObjectFromNet(net).marking;
            m.Some? ==> forall id :: id in m.value ==> m.value[id] > 0
  {
    forall id | id in MarkingObject(net.places)
      ensures MarkingObject(net.places)[id] > 0
    {
      var i := LastMarked(net.places, id);
    }
  }

  /** A projected `marking` object only names listed places. */
  lemma ProjectedMarkingKeysArePlaces(net: PetriNet)
    ensures var j := JsonObjectFromNet(net);
            j.marking.Some? ==> forall id :: id in j.marking.value ==> id in j.places
  {
    forall id | id in MarkingObject(net.places)
      ensures id in PlaceIds(net.places)
    {
      var i :| 0 <= i < |net.places| && net.places[i].marking > 0 && net.places[i].id == id;
    }
  }

  /** No later place with the same id has a positive marking: the one whose entry survives. */
  ghost predicate LastMarkedWithId(places: seq<Place>, i: int)
    requires 0 <= i < |places|
  {
    forall j :: i < j < |places| && places[j].marking > 0 ==> places[j].id != places[i].id
  }

  /** No later arc has the same endpoints: the one whose weight survives. */
  ghost predicate LastArcWithKey(arcs: seq<Arc>, i: int)
    requires 0 <= i < |arcs|
  {
    forall j :: i < j < |arcs| ==> KeyOf(arcs[j]) != KeyOf(arcs[i])
  }

  /** `generateTextFromNet`: the text depends on the net only through its JSON object. */
  function TextFromNet(net: PetriNet, stringify: JsonPetriNet -> string): string {
    stringify(JsonObjectFromNet(net))
  }

  /** The index of the place whose marking the `marking` object holds for `id`. */
  lemma LastMarked(ps: seq<Place>, id: string) returns (i: int)
    requires exists i :: 0 <= i < |ps| && ps[i].marking > 0 && ps[i].id == id
    ensures 0 <= i < |ps| && ps[i].marking > 0 && ps[i].id == id && LastMarkedWithId(ps, i)
  {
    i :| 0 <= i < |ps| && ps[i].marking > 0 && ps[i].id == id;
    while exists j :: i < j < |ps| && ps[j].marking > 0 && ps[j].id == id
      invariant 0 <= i < |ps| && ps[i].marking > 0 && ps[i].id == id
      decreases |ps| - i
    {
      var j :| i < j < |ps| && ps[j].marking > 0 && ps[j].id == id;
      i := j;
    }
  }

  ghost predicate SamePositiveMarkings(ps: seq<Place>, qs: seq<Place>) {
    && |ps| == |qs|
    && forall i :: 0 <= i < |ps| ==>
         qs[i].id == ps[i].id && (qs[i].marking > 0 <==> ps[i].marking > 0)
         && (ps[i].marking > 0 ==> qs[i].marking == ps[i].marking)
  }

  lemma MarkingObjectIncluded(ps: seq<Place>, qs: seq<Place>)
    requires SamePositiveMarkings(ps, qs)
    ensures forall id :: id in MarkingObject(ps) ==> id in MarkingObject(qs) && MarkingObject(qs)[id] == MarkingObject(ps)[id]
  {
    forall id | id in MarkingObject(ps)
      ensures id in MarkingObject(qs) && MarkingObject(qs)[id] == MarkingObject(ps)[id]
    {
      var i := LastMarked(ps, id);
      assert LastMarkedWithId(qs, i);
    }
  }

  /** Two place lists with the same ids and the same positive markings give the same `marking` object. */
  lemma MarkingObjectAgrees(ps: seq<Place>, qs: seq<Place>)
    requires SamePositiveMarkings(ps, qs)
    ensures MarkingObject(ps) == MarkingObject(qs)
  {
    MarkingObjectIncluded(ps, qs);
    MarkingObjectIncluded(qs, ps);
  }

  /**
   * Transition labels and zero markings do not reach the text: nets that
   * agree on ids, positive markings and arcs print alike.
   */
  lemma TextIgnoresLabelsAndZeroMarkings(net: PetriNet, relabelled: PetriNet, stringify: JsonPetriNet -> string)
    requires TransitionIds(relabelled.transitions) == TransitionIds(net.transitions)
    requires SamePositiveMarkings(net.places, relabelled.places)
    requires relabelled.arcs == net.arcs
    ensures TextFromNet(relabelled, stringify) == TextFromNet(net, stringify)
  {
    MarkingObjectAgrees(net.places, relabelled.places);
    assert PlaceIds(relabelled.places) == PlaceIds(net.places);
    assert JsonObjectFromNet(relabelled) == JsonObjectFromNet(net);
  }
}

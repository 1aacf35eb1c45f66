/**
 * Parsing a net's JSON object and projecting the parsed net back gives the
 * same object, for every object the projection itself can produce: ids
 * distinct and comma-free, every arc key joining a transition and a place,
 * positive markings only, and no empty `marking` or `arcs` object.
 */
module NetRoundTrip {
  import opened Wrappers
  import opened Nets
  import JsString
  import NetToText
  import NetParser

  /** The arc key names a transition and a place, in either order. */
  ghost predicate JoinsTransitionAndPlace(key: string, transitions: seq<string>, places: seq<string>) {
    var parts := JsString.Split(key, ',');
    && |parts| == 2
    && ((parts[0] in transitions && parts[1] in places) || (parts[0] in places && parts[1] in transitions))
  }

  /** The JSON objects `JsonObjectFromNet` produces from a net the parser accepts. */
  ghost predicate Canonical(j: JsonPetriNet) {
    && NetParser.DistinctIds(j.transitions)
    && NetParser.DistinctIds(j.places)
    && (forall t :: t in j.transitions ==> t !in j.places)
    && |j.transitions| > 0
    && (j.marking.Some? ==>
          && j.marking.value != map[]
          && forall p :: p in j.marking.value ==> p in j.places && j.marking.value[p] > 0)
    && (j.arcs.Some? ==>
          && j.arcs.value != map[]
          && forall k :: k in j.arcs.value ==> JoinsTransitionAndPlace(k, j.transitions, j.places))
  }

  /** `Object.entries(m)` in some order. */
  ghost predicate Enumerates(es: seq<(string, int)>, m: map<string, int>) {
    && (forall i, k :: 0 <= i < k < |es| ==> es[i].0 != es[k].0)
    && (forall i :: 0 <= i < |es| ==> es[i].0 in m && m[es[i].0] == es[i].1)
    && (forall key :: key in m ==> exists i :: 0 <= i < |es| && es[i].0 == key)
  }

  /** What `JSON.parse` returns for the text of `j`, given the order of its entries. */
  function RawOf(j: JsonPetriNet, arcEntries: seq<(string, int)>, markingEntries: seq<(string, int)>): NetParser.RawNet {
    NetParser.RawNet(
      Some(j.transitions), Some(j.places),
      if j.arcs.Some? then NetParser.Entries(arcEntries) else NetParser.NotAnObject,
      if j.marking.Some? then NetParser.Entries(markingEntries) else NetParser.NotAnObject)
  }

  function ArcOf(entry: (string, int)): Arc {
    var parts := JsString.Split(entry.0, ',');
    Arc(parts[0], if |parts| > 1 then parts[1] else "", entry.1)
  }

  function ArcsOf(es: seq<(string, int)>): (arcs: seq<Arc>)
    ensures |arcs| == |es| && forall i :: 0 <= i < |es| ==> arcs[i] == ArcOf(es[i])
  {
    seq(|es|, i requires 0 <= i < |es| => ArcOf(es[i]))
  }

  lemma ArcOfKey(entry: (string, int))
    requires |JsString.Split(entry.0, ',')| == 2
    ensures ArcKey(ArcOf(entry).source, ArcOf(entry).target) == entry.0
  {
    var parts := JsString.Split(entry.0, ',');
    assert JsString.Join(parts, ',') == parts[0] + [','] + parts[1];
  }

  /** An entry joining a transition and a place whose key is not yet taken is added as its arc. */
  lemma ParseCanonicalArc(ts: seq<Transition>, ps: seq<Place>, entry: (string, int), acc: seq<Arc>)
    requires forall t :: t in TransitionIds(ts) ==> t !in PlaceIds(ps)
    requires JoinsTransitionAndPlace(entry.0, TransitionIds(ts), PlaceIds(ps))
    requires forall a :: a in acc ==> ArcKey(a.source, a.target) != entry.0
    ensures NetParser.ParseArc(ts, ps, entry, acc) == NetParser.Add(ArcOf(entry))
  {
    var parts := JsString.Split(entry.0, ',');
    ArcOfKey(entry);
  }

  lemma ParseArcsAddStep(ts: seq<Transition>, ps: seq<Place>, es: seq<(string, int)>, acc: seq<Arc>)
    requires |es| > 0
    requires forall a :: a in acc ==> NetParser.Bipartite(ts, ps, a)
    requires NetParser.NoDuplicateArcs(acc)
    requires NetParser.ParseArc(ts, ps, es[0], acc) == NetParser.Add(ArcOf(es[0]))
    ensures forall a :: a in acc + [ArcOf(es[0])] ==> NetParser.Bipartite(ts, ps, a)
    ensures NetParser.NoDuplicateArcs(acc + [ArcOf(es[0])])
    ensures NetParser.ParseArcs(ts, ps, es, acc) == NetParser.ParseArcs(ts, ps, es[1..], acc + [ArcOf(es[0])])
  {
  }

  lemma AppendAssociates<T>(a: seq<T>, b: seq<T>, c: seq<T>)
    ensures (a + b) + c == a + (b + c)
  {
  }

  lemma ArcsOfCons(es: seq<(string, int)>)
    requires |es| > 0
    ensures ArcsOf(es) == [ArcOf(es[0])] + ArcsOf(es[1..])
  {
  }

  /** Whether every arc's key differs from the key of every entry. */
  ghost predicate KeysFresh(acc: seq<Arc>, es: seq<(string, int)>) {
    forall a, i :: a in acc && 0 <= i < |es| ==> ArcKey(a.source, a.target) != es[i].0
  }

  lemma KeysFreshStep(acc: seq<Arc>, es: seq<(string, int)>)
    requires |es| > 0
    requires KeysFresh(acc, es)
    requires forall i, k :: 0 <= i < k < |es| ==> es[i].0 != es[k].0
    requires ArcKey(ArcOf(es[0]).source, ArcOf(es[0]).target) == es[0].0
    ensures KeysFresh(acc + [ArcOf(es[0])], es[1..])
  {
    var rest := es[1..];
    forall a, i | a in acc + [ArcOf(es[0])] && 0 <= i < |rest|
      ensures ArcKey(a.source, a.target) != rest[i].0
    {
      assert rest[i] == es[i + 1];
    }
  }

  /** Arc entries that all join a transition and a place are all added, in order. */
  lemma {:induction false} ParseCanonicalArcs(ts: seq<Transition>, ps: seq<Place>, es: seq<(string, int)>, acc: seq<Arc>)
    requires forall t :: t in TransitionIds(ts) ==> t !in PlaceIds(ps)
    requires forall a :: a in acc ==> NetParser.Bipartite(ts, ps, a)
    requires NetParser.NoDuplicateArcs(acc)
    requires forall i :: 0 <= i < |es| ==> JoinsTransitionAndPlace(es[i].0, TransitionIds(ts), PlaceIds(ps))
    requires forall i, k :: 0 <= i < k < |es| ==> es[i].0 != es[k].0
    requires KeysFresh(acc, es)
    ensures NetParser.ParseArcs(ts, ps, es, acc) == Success(acc + ArcsOf(es))
    decreases |es|
  {
    if |es| > 0 {
      ParseCanonicalArc(ts, ps, es[0], acc);
      ArcOfKey(es[0]);
      KeysFreshStep(acc, es);
      ParseArcsAddStep(ts, ps, es, acc);
      ParseCanonicalArcs(ts, ps, es[1..], acc + [ArcOf(es[0])]);
      ArcsOfCons(es);
      AppendAssociates(acc, [ArcOf(es[0])], ArcsOf(es[1..]));
    } else {
      assert acc + ArcsOf(es) == acc;
    }
  }

  /** The marking the entries leave on a place whose marking starts at `d`: the last non-negative value for its id. */
  ghost function Lookup(es: seq<(string, int)>, id: string, d: int): int
    decreases |es|
  {
    if |es| == 0 then d
    else Lookup(es[1..], id, if es[0].0 == id && es[0].1 >= 0 then es[0].1 else d)
  }

  lemma {:induction false} ApplyMarkingLookup(ps: seq<Place>, es: seq<(string, int)>, i: int)
    requires NetParser.DistinctIds(PlaceIds(ps))
    requires 0 <= i < |ps|
    ensures |NetParser.ApplyMarking(ps, es)| == |ps|
    ensures NetParser.ApplyMarking(ps, es)[i].marking == Lookup(es, ps[i].id, ps[i].marking)
    decreases |es|
  {
    if |es| > 0 {
      var (id, value) := es[0];
      var x := NetParser.FindPlaceIndex(ps, id);
      var ps' := if x < 0 || value < 0 then ps else ps[x := Place(id, value)];
      assert PlaceIds(ps') == PlaceIds(ps);
      assert NetParser.ApplyMarking(ps, es) == NetParser.ApplyMarking(ps', es[1..]);
      assert ps'[i].id == ps[i].id;
      if id == ps[i].id {
        assert PlaceIds(ps)[i] == id;
        assert x == i;
      } else if 0 <= x {
        assert x != i;
      }
      ApplyMarkingLookup(ps', es[1..], i);
    }
  }

  lemma {:induction false} LookupAbsent(es: seq<(string, int)>, id: string, d: int)
    requires forall k :: 0 <= k < |es| ==> es[k].0 != id
    ensures Lookup(es, id, d) == d
    decreases |es|
  {
    if |es| > 0 {
      assert forall k :: 0 <= k < |es[1..]| ==> es[1..][k] == es[k + 1];
      LookupAbsent(es[1..], id, d);
    }
  }

  lemma {:induction false} LookupPresent(es: seq<(string, int)>, id: string, d: int, k: int)
    requires forall i, k :: 0 <= i < k < |es| ==> es[i].0 != es[k].0
    requires 0 <= k < |es| && es[k].0 == id && es[k].1 >= 0
    ensures Lookup(es, id, d) == es[k].1
    decreases |es|
  {
    var rest := es[1..];
    if k == 0 {
      forall n | 0 <= n < |rest|
        ensures rest[n].0 != id
      {
        assert rest[n] == es[n + 1];
      }
      LookupAbsent(rest, id, es[0].1);
    } else {
      assert rest[k - 1] == es[k];
      forall i, n | 0 <= i < n < |rest|
        ensures rest[i].0 != rest[n].0
      {
        assert rest[i] == es[i + 1] && rest[n] == es[n + 1];
      }
      assert es[0].0 != id;
      LookupPresent(rest, id, d, k - 1);
    }
  }

  lemma MapsAgree<K, V>(a: map<K, V>, b: map<K, V>)
    requires forall k :: k in b ==> k in a && a[k] == b[k]
    requires forall k :: k in a ==> k in b
    ensures a == b
  {
  }

  lemma ArcsOfKeys(es: seq<(string, int)>)
    requires forall i :: 0 <= i < |es| ==> |JsString.Split(es[i].0, ',')| == 2
    ensures forall i :: 0 <= i < |es| ==> NetToText.KeyOf(ArcsOf(es)[i]) == es[i].0
  {
    forall i | 0 <= i < |es|
      ensures NetToText.KeyOf(ArcsOf(es)[i]) == es[i].0
    {
      ArcOfKey(es[i]);
    }
  }

  lemma ArcsObjectHasEntry(es: seq<(string, int)>, m: map<string, int>, i: int)
    requires Enumerates(es, m)
    requires forall i :: 0 <= i < |es| ==> NetToText.KeyOf(ArcsOf(es)[i]) == es[i].0
    requires 0 <= i < |es|
    ensures var r := NetToText.ArcsObject(ArcsOf(es)); es[i].0 in r && r[es[i].0] == m[es[i].0]
  {
    var arcs := ArcsOf(es);
    assert NetToText.LastArcWithKey(arcs, i);
  }

  lemma ArcsObjectOfEntries(es: seq<(string, int)>, m: map<string, int>)
    requires Enumerates(es, m)
    requires forall i :: 0 <= i < |es| ==> |JsString.Split(es[i].0, ',')| == 2
    ensures NetToText.ArcsObject(ArcsOf(es)) == m
  {
    ArcsOfKeys(es);
    var r := NetToText.ArcsObject(ArcsOf(es));
    forall key | key in m
      ensures key in r && r[key] == m[key]
    {
      var i :| 0 <= i < |es| && es[i].0 == key;
      ArcsObjectHasEntry(es, m, i);
    }
    MapsAgree(r, m);
  }

  lemma MarkingObjectHasEntry(ps: seq<Place>, es: seq<(string, int)>, m: map<string, int>, i: int, k: int)
    requires NetParser.DistinctIds(PlaceIds(ps))
    requires forall i :: 0 <= i < |ps| ==> ps[i].marking == 0
    requires Enumerates(es, m)
    requires 0 <= i < |ps| && 0 <= k < |es| && es[k].0 == ps[i].id && m[ps[i].id] > 0
    ensures var mo := NetToText.MarkingObject(NetParser.ApplyMarking(ps, es));
            ps[i].id in mo && mo[ps[i].id] == m[ps[i].id]
  {
    var r := NetParser.ApplyMarking(ps, es);
    ApplyMarkingLookup(ps, es, i);
    LookupPresent(es, ps[i].id, 0, k);
    assert PlaceIds(r)[i] == PlaceIds(ps)[i];
    forall n | i < n < |r| && r[n].marking > 0
      ensures r[n].id != r[i].id
    {
      assert PlaceIds(r)[n] == PlaceIds(ps)[n];
    }
    assert NetToText.LastMarkedWithId(r, i);
  }

  lemma MarkingObjectOnlyEntries(ps: seq<Place>, es: seq<(string, int)>, m: map<string, int>, i: int)
    requires NetParser.DistinctIds(PlaceIds(ps))
    requires forall i :: 0 <= i < |ps| ==> ps[i].marking == 0
    requires Enumerates(es, m)
    requires 0 <= i < |ps| && NetParser.ApplyMarking(ps, es)[i].marking > 0
    ensures ps[i].id in m
  {
  }

  lemma MarkingObjectOfEntries(ps: seq<Place>, es: seq<(string, int)>, m: map<string, int>)
    requires NetParser.DistinctIds(PlaceIds(ps))
    requires forall i :: 0 <= i < |ps| ==> ps[i].marking == 0
    requires Enumerates(es, m)
    requires forall p :: p in m ==> p in PlaceIds(ps) && m[p] > 0
    ensures NetToText.MarkingObject(NetParser.ApplyMarking(ps, es)) == m
  {
    var r := NetParser.ApplyMarking(ps, es);
    var mo := NetToText.MarkingObject(r);
    assert PlaceIds(r) == PlaceIds(ps);
    forall key | key in m
      ensures key in mo && mo[key] == m[key]
    {
      var i :| 0 <= i < |PlaceIds(ps)| && PlaceIds(ps)[i] == key;
      var k :| 0 <= k < |es| && es[k].0 == key;
      MarkingObjectHasEntry(ps, es, m, i, k);
    }
    forall key | key in mo
      ensures key in m
    {
      var i :| 0 <= i < |r| && r[i].marking > 0 && r[i].id == key;
      assert PlaceIds(r)[i] == PlaceIds(ps)[i];
      MarkingObjectOnlyEntries(ps, es, m, i);
    }
    MapsAgree(mo, m);
  }

  /** Without marking entries, every place keeps marking 0 and no marking object is written. */
  lemma UnmarkedPlaces(ps: seq<Place>)
    requires forall i :: 0 <= i < |ps| ==> ps[i].marking == 0
    ensures NetToText.MarkingObject(ps) == map[]
  {
  }

  /** The projection of a net is `j` when each of its four parts matches. */
  lemma ProjectParts(net: PetriNet, j: JsonPetriNet)
    requires TransitionIds(net.transitions) == j.transitions
    requires PlaceIds(net.places) == j.places
    requires j.marking.Some? ==> j.marking.value != map[] && NetToText.MarkingObject(net.places) == j.marking.value
    requires j.marking.None? ==> NetToText.MarkingObject(net.places) == map[]
    requires j.arcs.Some? ==> |net.arcs| > 0 && NetToText.ArcsObject(net.arcs) == j.arcs.value
    requires j.arcs.None? ==> |net.arcs| == 0
    ensures NetToText.JsonObjectFromNet(net) == j
  {
    var p := NetToText.JsonObjectFromNet(net);
    var mo := NetToText.MarkingObject(net.places);
    if j.marking.Some? {
      var key :| key in mo;
      assert p.marking.Some?;
      assert p.marking == j.marking;
    } else {
      assert p.marking.None?;
    }
    assert p.arcs == j.arcs;
    assert p == JsonPetriNet(p.transitions, p.places, p.marking, p.arcs);
  }

  /** The entries of the `arcs` object of `j` all parse, in order. */
  lemma ParseObjectArcs(j: JsonPetriNet, arcEntries: seq<(string, int)>)
    requires Canonical(j) && j.arcs.Some?
    requires Enumerates(arcEntries, j.arcs.value)
    ensures NetParser.DistinctIds(TransitionIds([])) && NetParser.DistinctIds(PlaceIds([]))
    ensures var ts := NetParser.AddTransitions([], j.transitions);
            var ps := NetParser.AddPlaces([], j.places);
            NetParser.ParseArcs(ts, ps, arcEntries, []) == Success(ArcsOf(arcEntries))
  {
    assert [] + j.transitions == j.transitions;
    assert [] + j.places == j.places;
    var ts := NetParser.AddTransitions([], j.transitions);
    var ps := NetParser.AddPlaces([], j.places);
    ParseCanonicalArcs(ts, ps, arcEntries, []);
    assert [] + ArcsOf(arcEntries) == ArcsOf(arcEntries);
  }

  /** The parse of the object `j`: its transitions and places in order, its arcs and its marking applied. */
  lemma ParseCanonical(j: JsonPetriNet, arcEntries: seq<(string, int)>, markingEntries: seq<(string, int)>, errors: set<string>)
    requires NetParser.DistinctIds(j.transitions) && NetParser.DistinctIds(j.places) && |j.transitions| > 0
    requires j.arcs.Some? ==>
               NetParser.ParseArcs(NetParser.AddTransitions([], j.transitions), NetParser.AddPlaces([], j.places), arcEntries, [])
               == Success(ArcsOf(arcEntries))
    ensures var ts := NetParser.AddTransitions([], j.transitions);
            var ps := NetParser.AddPlaces([], j.places);
            var arcs := if j.arcs.Some? then arcEntries else [];
            var marked := if j.marking.Some? then NetParser.ApplyMarking(ps, markingEntries) else ps;
            && TransitionIds(ts) == j.transitions
            && PlaceIds(ps) == j.places
            && NetParser.ParsePetriNet(NetParser.Parsed(RawOf(j, arcEntries, markingEntries)), errors)
               == NetParser.ParseResult(NetParser.NetParsed(PetriNet(ts, marked, ArcsOf(arcs))), errors)
  {
    assert [] + j.transitions == j.transitions;
    assert [] + j.places == j.places;
    assert j.arcs.None? ==> ArcsOf([]) == [];
    NetParser.ParseAccepts(RawOf(j, arcEntries, markingEntries), errors, ArcsOf(if j.arcs.Some? then arcEntries else []));
  }

  /**
   * Parsing the object `j` and projecting the parsed net gives `j` back,
   * with no error recorded, whatever order `JSON.parse` lists the entries in.
   */
  lemma ParseThenProject(j: JsonPetriNet, arcEntries: seq<(string, int)>, markingEntries: seq<(string, int)>, errors: set<string>)
    requires Canonical(j)
    requires j.arcs.Some? ==> Enumerates(arcEntries, j.arcs.value)
    requires j.marking.Some? ==> Enumerates(markingEntries, j.marking.value)
    ensures var r := NetParser.ParsePetriNet(NetParser.Parsed(RawOf(j, arcEntries, markingEntries)), errors);
            && r.errors == errors
            && r.outcome.NetParsed?
            && NetToText.JsonObjectFromNet(r.outcome.net) == j
  {
    if j.arcs.Some? {
      ParseObjectArcs(j, arcEntries);
    }
    ParseCanonical(j, arcEntries, markingEntries, errors);
    var ps := NetParser.AddPlaces([], j.places);
    var arcs := if j.arcs.Some? then arcEntries else [];
    var marked := if j.marking.Some? then NetParser.ApplyMarking(ps, markingEntries) else ps;
    var net := PetriNet(NetParser.AddTransitions([], j.transitions), marked, ArcsOf(arcs));
    if j.arcs.Some? {
      forall i | 0 <= i < |arcEntries|
        ensures |JsString.Split(arcEntries[i].0, ',')| == 2
      {
        assert JoinsTransitionAndPlace(arcEntries[i].0, j.transitions, j.places);
      }
      ArcsObjectOfEntries(arcEntries, j.arcs.value);
      var key :| key in j.arcs.value;
      assert |arcEntries| > 0;
    }
    if j.marking.Some? {
      MarkingObjectOfEntries(ps, markingEntries, j.marking.value);
    } else {
      UnmarkedPlaces(ps);
    }
    assert PlaceIds(marked) == j.places;
    ProjectParts(net, j);
  }
}

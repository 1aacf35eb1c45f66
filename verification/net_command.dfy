/**
 * Synthesis of a repaired net from an automatic repair
 * (src/app/services/repair/net-command.service.ts).
 *
 * A repair is applied to the JSON object of the current net: missing
 * transitions are appended, the marking and place list are rewritten and,
 * unless only the marking changes, every arc touching the repaired place is
 * replaced by the arcs the repair prescribes.
 */
module NetCommand {
  import opened Wrappers
  import opened Nets
  import JsString
  import Dicts
  import NetToText

  /** One arc of a repair: the transition it connects to and its weight. */
  datatype ArcDefinition = ArcDefinition(transitionLabel: string, weight: int)

  /** One of the places that replace an invalid place. */
  datatype PlaceRepair = PlaceRepair(incoming: seq<ArcDefinition>, outgoing: seq<ArcDefinition>, newMarking: Option<int>)

  /**
   * The three kinds of automatic repair. Both `MarkingRepair.newMarking` and
   * `ModifyPlace.modifiedMarking` are the source's `newMarking`.
   */
  datatype AutoRepair =
    | MarkingRepair(newMarking: int)
    | ModifyPlace(incoming: seq<ArcDefinition>, outgoing: seq<ArcDefinition>, modifiedMarking: Option<int>)
    | ReplacePlace(places: seq<PlaceRepair>)

  /** JavaScript truthiness of an optional number: present and non-zero. */
  predicate Truthy(n: Option<int>) {
    n.Some? && n.value != 0
  }

  ghost predicate NoDuplicates<T>(xs: seq<T>) {
    forall i, j :: 0 <= i < j < |xs| ==> xs[i] != xs[j]
  }

  ghost predicate Mentions(defs: seq<ArcDefinition>, l: string) {
    exists d :: d in defs && d.transitionLabel == l
  }

  /** The repair puts an arc between the place and a transition labelled `label`. */
  ghost predicate References(solution: AutoRepair, l: string) {
    match solution
    case MarkingRepair(_) => false
    case ModifyPlace(incoming, outgoing, _) => Mentions(incoming, l) || Mentions(outgoing, l)
    case ReplacePlace(places) =>
      exists i :: 0 <= i < |places| && (Mentions(places[i].incoming, l) || Mentions(places[i].outgoing, l))
  }

  /** The transition labels of some arc definitions, in order. */
  function Labels(defs: seq<ArcDefinition>): (ls: seq<string>)
    ensures |ls| == |defs| && forall i :: 0 <= i < |defs| ==> ls[i] == defs[i].transitionLabel
    ensures forall l :: l in ls <==> Mentions(defs, l)
  {
    var ls := seq(|defs|, i requires 0 <= i < |defs| => defs[i].transitionLabel);
    assert forall l :: Mentions(defs, l) ==> exists i :: 0 <= i < |defs| && defs[i].transitionLabel == l;
    ls
  }

  /** `places.flatMap(p => [...incoming labels, ...outgoing labels])`. */
  function ReplacementLabels(places: seq<PlaceRepair>): (ls: seq<string>)
    ensures forall l :: l in ls <==>
              exists i :: 0 <= i < |places| && (Mentions(places[i].incoming, l) || Mentions(places[i].outgoing, l))
  {
    if |places| == 0 then []
    else
      var ls := Labels(places[0].incoming) + Labels(places[0].outgoing) + ReplacementLabels(places[1..]);
      assert forall i :: 1 <= i < |places| ==> places[i] == places[1..][i - 1];
      ls
  }

  /** The labels of every arc definition of a repair, in the order the source collects them. */
  function LabelSequence(solution: AutoRepair): (ls: seq<string>)
    ensures forall l :: l in ls <==> References(solution, l)
  {
    match solution
    case MarkingRepair(_) => []
    case ModifyPlace(incoming, outgoing, _) => Labels(incoming) + Labels(outgoing)
    case ReplacePlace(places) => ReplacementLabels(places)
  }

  /** The position of the first occurrence of `x` in `xs`. */
  ghost function FirstIndex<T>(xs: seq<T>, x: T): (i: nat)
    requires x in xs
    ensures i < |xs| && xs[i] == x && x !in xs[..i]
  {
    if xs[0] == x then 0
    else
      var i := 1 + FirstIndex(xs[1..], x);
      assert xs[..i] == [xs[0]] + xs[1..][..i - 1];
      i
  }

  /** The first occurrence is the only position holding `x` with no `x` before it. */
  lemma FirstIndexUnique<T>(xs: seq<T>, x: T, i: int)
    requires 0 <= i < |xs| && xs[i] == x && x !in xs[..i]
    ensures FirstIndex(xs, x) == i
  {
  }

  lemma FirstIndexInPrefix<T>(front: seq<T>, last: T, x: T)
    requires x in front
    ensures FirstIndex(front + [last], x) == FirstIndex(front, x)
  {
    var i := FirstIndex(front, x);
    assert (front + [last])[..i] == front[..i];
    FirstIndexUnique(front + [last], x, i);
  }

  /** Positions in `r` follow the first occurrences of their elements in `xs`. */
  ghost predicate InFirstOccurrenceOrder<T>(r: seq<T>, xs: seq<T>)
    requires forall x :: x in r ==> x in xs
  {
    forall i, j :: 0 <= i < j < |r| ==> FirstIndex(xs, r[i]) < FirstIndex(xs, r[j])
  }

  /** `Array.from(new Set(xs))`: each element once, at its first position. */
  function Dedup(xs: seq<string>): (r: seq<string>)
    ensures NoDuplicates(r)
    ensures forall x :: x in r <==> x in xs
    ensures InFirstOccurrenceOrder(r, xs)
    ensures NoDuplicates(xs) ==> r == xs
  {
    if |xs| == 0 then []
    else
      var front := xs[..|xs| - 1];
      var last := xs[|xs| - 1];
      assert xs == front + [last];
      var r := Dedup(front);
      DedupStep(front, last, r);
      if last in r then r else r + [last]
  }

  /** Adding one element to the input of `Dedup` keeps it or appends it, as the set does. */
  lemma DedupStep(front: seq<string>, last: string, r: seq<string>)
    requires NoDuplicates(r) && (forall x :: x in r <==> x in front) && InFirstOccurrenceOrder(r, front)
    requires NoDuplicates(front) ==> r == front
    ensures var xs := front + [last];
            var r' := if last in r then r else r + [last];
            && NoDuplicates(r') && (forall x :: x in r' <==> x in xs) && InFirstOccurrenceOrder(r', xs)
            && (NoDuplicates(xs) ==> r' == xs)
  {
    var xs := front + [last];
    assert forall x :: x in xs <==> x in front || x == last;
    OrderExtends(r, front, last);
    if last !in r {
      OrderAppend(r, front, last);
    }
    if NoDuplicates(xs) {
      NoDuplicatesPrefix(front, last);
    }
  }

  lemma NoDuplicatesPrefix(front: seq<string>, last: string)
    requires NoDuplicates(front + [last])
    ensures NoDuplicates(front) && last !in front
  {
    var xs := front + [last];
    assert forall i :: 0 <= i < |front| ==> front[i] == xs[i] && xs[i] != xs[|xs| - 1];
  }

  /** Appending to the input moves no first occurrence of an element already present. */
  lemma OrderExtends(r: seq<string>, front: seq<string>, last: string)
    requires forall x :: x in r ==> x in front
    requires InFirstOccurrenceOrder(r, front)
    ensures forall x :: x in r ==> x in front + [last]
    ensures InFirstOccurrenceOrder(r, front + [last])
  {
    forall x | x in r
      ensures FirstIndex(front + [last], x) == FirstIndex(front, x)
    {
      FirstIndexInPrefix(front, last, x);
    }
  }

  /** A new element first occurs after every element already present. */
  lemma OrderAppend(r: seq<string>, front: seq<string>, last: string)
    requires forall x :: x in r ==> x in front
    requires last !in front
    requires InFirstOccurrenceOrder(r, front + [last])
    ensures forall x :: x in r + [last] ==> x in front + [last]
    ensures InFirstOccurrenceOrder(r + [last], front + [last])
  {
    var xs := front + [last];
    assert xs[..|xs| - 1] == front;
    FirstIndexUnique(xs, last, |xs| - 1);
    forall i | 0 <= i < |r|
      ensures FirstIndex(xs, r[i]) < |front|
    {
      var k := FirstIndex(xs, r[i]);
      assert xs[k] == r[i] && r[i] in front;
    }
    var r' := r + [last];
    forall i, j | 0 <= i < j < |r'|
      ensures FirstIndex(xs, r'[i]) < FirstIndex(xs, r'[j])
    {
      assert r'[i] == r[i];
      if j < |r| {
        assert r'[j] == r[j];
      }
    }
  }

  /** `getRequiredTransitions`: every label the repair connects to, once each, in first-occurrence order. */
  function RequiredTransitions(solution: AutoRepair): (r: seq<string>)
    ensures NoDuplicates(r)
    ensures forall l :: l in r <==> References(solution, l)
    ensures InFirstOccurrenceOrder(r, LabelSequence(solution))
    ensures solution.MarkingRepair? ==> r == []
  {
    Dedup(LabelSequence(solution))
  }

  ghost predicate HasTransitionLabelled(net: PetriNet, l: string) {
    exists i :: 0 <= i < |net.transitions| && net.transitions[i].transitionLabel == l
  }

  /** `labels.filter(l => !net.transitions.some(t => t.label === l))`. */
  function Absent(net: PetriNet, labels: seq<string>): (r: seq<string>)
    ensures forall l :: l in r <==> l in labels && !HasTransitionLabelled(net, l)
    ensures NoDuplicates(labels) ==> NoDuplicates(r) && InFirstOccurrenceOrder(r, labels)
  {
    if |labels| == 0 then []
    else
      var rest := Absent(net, labels[1..]);
      assert forall l :: l in labels <==> l == labels[0] || l in labels[1..];
      assert NoDuplicates(labels) ==>
               && NoDuplicates(labels[1..]) && labels[0] !in labels[1..]
               && forall x :: x in rest ==> FirstIndex(labels, x) == 1 + FirstIndex(labels[1..], x) by {
        if NoDuplicates(labels) {
          assert forall i :: 0 <= i < |labels| - 1 ==> labels[1..][i] == labels[i + 1];
        }
      }
      if exists i :: 0 <= i < |net.transitions| && net.transitions[i].transitionLabel == labels[0] then rest
      else
        assert NoDuplicates(labels) ==> labels[0] !in rest;
        [labels[0]] + rest
  }

  /** The labels a repair needs that no transition of the net carries, once each, in the order `getRequiredTransitions` gives them. */
  function MissingTransitions(net: PetriNet, solution: AutoRepair): (r: seq<string>)
    ensures NoDuplicates(r)
    ensures forall l :: l in r <==> References(solution, l) && !HasTransitionLabelled(net, l)
    ensures InFirstOccurrenceOrder(r, LabelSequence(solution))
  {
    var req := RequiredTransitions(solution);
    var r := Absent(net, req);
    forall i, j | 0 <= i < j < |r|
      ensures FirstIndex(LabelSequence(solution), r[i]) < FirstIndex(LabelSequence(solution), r[j])
    {
      var p := FirstIndex(req, r[i]);
      var q := FirstIndex(req, r[j]);
      assert p < q;
    }
    r
  }

  /** `transitions.push(...transitionsThatDontExist)` on the net's JSON object. */
  function WithMissingTransitions(net: PetriNet, solution: AutoRepair): (j: JsonPetriNet)
    ensures var base := NetToText.JsonObjectFromNet(net);
            && |j.transitions| == |net.transitions| + |MissingTransitions(net, solution)|
            && j.transitions[..|net.transitions|] == base.transitions
            && j.transitions[|net.transitions|..] == MissingTransitions(net, solution)
            && j.places == base.places && j.marking == base.marking && j.arcs == base.arcs
  {
    var base := NetToText.JsonObjectFromNet(net);
    var j := base.(transitions := base.transitions + MissingTransitions(net, solution));
    assert j.transitions[..|net.transitions|] == base.transitions;
    j
  }

  // ---------------------------------------------------------------------------
  // Places and markings
  // ---------------------------------------------------------------------------

  /** `${placeId}_${index}`: the id of the `index`-th place replacing `placeId`. */
  function ReplacementId(placeId: string, index: nat): string {
    placeId + "_" + JsString.NatToString(index)
  }

  lemma ReplacementIdInjective(placeId: string, i: nat, k: nat)
    requires ReplacementId(placeId, i) == ReplacementId(placeId, k)
    ensures i == k
  {
    var n := |placeId| + 1;
    assert ReplacementId(placeId, i)[n..] == JsString.NatToString(i);
    assert ReplacementId(placeId, k)[n..] == JsString.NatToString(k);
    JsString.NatToStringInjective(i, k);
  }

  function ReplacementIds(placeId: string, count: nat): (ids: seq<string>)
    ensures |ids| == count
    ensures forall i :: 0 <= i < count ==> ids[i] == ReplacementId(placeId, i)
  {
    seq(count, i requires 0 <= i < count => ReplacementId(placeId, i))
  }

  /** `Array.prototype.splice(start, 1, ...items)`, start clamped as JavaScript does. */
  function Splice<T>(s: seq<T>, start: int, items: seq<T>): (r: seq<T>)
    ensures 0 <= start < |s| ==> r == s[..start] + items + s[start + 1..]
    ensures 0 <= start < |s| ==> |r| == |s| + |items| - 1
    ensures start >= |s| ==> r == s + items
  {
    var len := |s|;
    var actual := if start < 0 then (if len + start < 0 then 0 else len + start)
                  else (if start < len then start else len);
    var deleted := if len - actual < 1 then len - actual else 1;
    s[..actual] + items + s[actual + deleted..]
  }

  /** The markings written for the replacement places whose `newMarking` is truthy. */
  function ReplacementMarkings(placeId: string, places: seq<PlaceRepair>): (m: map<string, int>)
    ensures forall k :: k in m <==>
              exists i :: 0 <= i < |places| && Truthy(places[i].newMarking) && k == ReplacementId(placeId, i)
    ensures forall i :: 0 <= i < |places| && Truthy(places[i].newMarking) ==>
              m[ReplacementId(placeId, i)] == places[i].newMarking.value
  {
    if |places| == 0 then map[]
    else
      var n := |places| - 1;
      var m := ReplacementMarkings(placeId, places[..n]);
      forall i | 0 <= i < n
        ensures ReplacementId(placeId, i) != ReplacementId(placeId, n)
      {
        if ReplacementId(placeId, i) == ReplacementId(placeId, n) {
          ReplacementIdInjective(placeId, i, n);
        }
      }
      if Truthy(places[n].newMarking) then m[ReplacementId(placeId, n) := places[n].newMarking.value] else m
  }

  /**
   * `generatePlaceForSolution`: rewrite the marking (and, for replace-place,
   * the place list) of the repaired place. A replace-place repair without an
   * index is the error `unexpected state`.
   */
  function GeneratePlaceForSolution(placeId: string, oldMarking: int, solution: AutoRepair,
                                    j: JsonPetriNet, oldPlaceIndex: Option<int>): (r: Result<JsonPetriNet>)
    ensures r.Failure? <==> solution.ReplacePlace? && oldPlaceIndex.None?
    ensures r.Success? ==> r.value.transitions == j.transitions && r.value.arcs == j.arcs && r.value.marking.Some?
    ensures r.Success? && !solution.ReplacePlace? ==> r.value.places == j.places
    ensures r.Success? && solution.MarkingRepair? ==>
              r.value.marking.value == j.marking.GetOr(map[])[placeId := solution.newMarking]
    ensures r.Success? && solution.ModifyPlace? && Truthy(solution.modifiedMarking) ==>
              r.value.marking.value == j.marking.GetOr(map[])[placeId := solution.modifiedMarking.value]
    ensures r.Success? && solution.ModifyPlace? && !Truthy(solution.modifiedMarking) ==>
              r.value.marking.value == j.marking.GetOr(map[])[placeId := oldMarking]
    ensures r.Success? && solution.ReplacePlace? ==>
              && r.value.places == Splice(j.places, oldPlaceIndex.value, ReplacementIds(placeId, |solution.places|))
              && (forall k :: k in r.value.marking.value <==>
                    k in j.marking.GetOr(map[]) || k in ReplacementMarkings(placeId, solution.places))
              && (forall i :: 0 <= i < |solution.places| && Truthy(solution.places[i].newMarking) ==>
                    r.value.marking.value[ReplacementId(placeId, i)] == solution.places[i].newMarking.value)
              && (forall k :: k in j.marking.GetOr(map[]) && k !in ReplacementMarkings(placeId, solution.places) ==>
                    r.value.marking.value[k] == j.marking.value[k])
  {
    var marking := j.marking.GetOr(map[]);
    match solution
    case MarkingRepair(newMarking) =>
      Success(j.(marking := Some(marking[placeId := newMarking])))
    case ModifyPlace(_, _, newMarking) =>
      if Truthy(newMarking) then Success(j.(marking := Some(marking[placeId := newMarking.value])))
      else Success(j.(marking := Some(marking[placeId := oldMarking])))
    case ReplacePlace(places) =>
      if oldPlaceIndex.None? then Failure("unexpected state")
      else
        var ids := ReplacementIds(placeId, |places|);
        Success(j.(places := Splice(j.places, oldPlaceIndex.value, ids),
                   marking := Some(marking + ReplacementMarkings(placeId, places))))
  }

  // ---------------------------------------------------------------------------
  // Arcs
  // ---------------------------------------------------------------------------

  /** `split[0] === placeId || split[1] === placeId` for `split = key.split(',')`. */
  predicate Touches(key: string, placeId: string) {
    var parts := JsString.Split(key, ',');
    parts[0] == placeId || (|parts| > 1 && parts[1] == placeId)
  }

  /** The entries `label,place := weight`, in order. */
  function IncomingEntries(defs: seq<ArcDefinition>, placeId: string): (es: seq<(string, int)>)
    ensures |es| == |defs|
    ensures forall i :: 0 <= i < |defs| ==> es[i] == (ArcKey(defs[i].transitionLabel, placeId), defs[i].weight)
  {
    seq(|defs|, i requires 0 <= i < |defs| => (ArcKey(defs[i].transitionLabel, placeId), defs[i].weight))
  }

  /** The entries `place,label := weight`, in order. */
  function OutgoingEntries(placeId: string, defs: seq<ArcDefinition>): (es: seq<(string, int)>)
    ensures |es| == |defs|
    ensures forall i :: 0 <= i < |defs| ==> es[i] == (ArcKey(placeId, defs[i].transitionLabel), defs[i].weight)
  {
    seq(|defs|, i requires 0 <= i < |defs| => (ArcKey(placeId, defs[i].transitionLabel), defs[i].weight))
  }

  /** Arc writes of replacement places `from..`, place by place, incoming before outgoing. */
  function ReplacementEntries(placeId: string, places: seq<PlaceRepair>, from: nat): seq<(string, int)>
    decreases |places|
  {
    if |places| == 0 then []
    else
      var id := ReplacementId(placeId, from);
      IncomingEntries(places[0].incoming, id) + OutgoingEntries(id, places[0].outgoing)
      + ReplacementEntries(placeId, places[1..], from + 1)
  }

  /** Every arc write of a replace-place repair connects a replacement place to a label it mentions. */
  lemma {:induction false} ReplacementEntriesShape(placeId: string, places: seq<PlaceRepair>, from: nat, e: (string, int))
    requires e in ReplacementEntries(placeId, places, from)
    ensures exists i, d :: 0 <= i < |places| &&
              ((d in places[i].incoming && e.0 == ArcKey(d.transitionLabel, ReplacementId(placeId, from + i)))
               || (d in places[i].outgoing && e.0 == ArcKey(ReplacementId(placeId, from + i), d.transitionLabel)))
    decreases |places|
  {
    var id := ReplacementId(placeId, from);
    var ins := IncomingEntries(places[0].incoming, id);
    var outs := OutgoingEntries(id, places[0].outgoing);
    if e in ins {
      var k :| 0 <= k < |ins| && ins[k] == e;
      assert places[0].incoming[k] in places[0].incoming;
    } else if e in outs {
      var k :| 0 <= k < |outs| && outs[k] == e;
      assert places[0].outgoing[k] in places[0].outgoing;
    } else {
      ReplacementEntriesShape(placeId, places[1..], from + 1, e);
      var i, d :| 0 <= i < |places[1..]| &&
              ((d in places[1..][i].incoming && e.0 == ArcKey(d.transitionLabel, ReplacementId(placeId, from + 1 + i)))
               || (d in places[1..][i].outgoing && e.0 == ArcKey(ReplacementId(placeId, from + 1 + i), d.transitionLabel)));
      assert places[1..][i] == places[i + 1];
    }
  }

  /** The arc writes a repair performs after the old arcs are removed, in source order. */
  function ArcWrites(placeId: string, solution: AutoRepair): seq<(string, int)> {
    match solution
    case MarkingRepair(_) => []
    case ModifyPlace(incoming, outgoing, _) =>
      IncomingEntries(incoming, placeId) + OutgoingEntries(placeId, outgoing)
    case ReplacePlace(places) => ReplacementEntries(placeId, places, 0)
  }

  /** The arcs that survive the removal: those not touching `placeId`. */
  function Untouched(arcs: map<string, int>, placeId: string): (m: map<string, int>)
    ensures forall k :: k in m <==> k in arcs && !Touches(k, placeId)
    ensures forall k :: k in m ==> m[k] == arcs[k]
  {
    map k | k in arcs && !Touches(k, placeId) :: arcs[k]
  }

  /**
   * `generateArcsForSolution`: a marking repair leaves the object alone;
   * otherwise every arc touching the old place is deleted and the repair's
   * arcs are written, later writes to a key replacing earlier ones.
   */
  function GenerateArcsForSolution(oldPlaceId: string, solution: AutoRepair, j: JsonPetriNet): (r: JsonPetriNet)
    ensures solution.MarkingRepair? ==> r == j
    ensures r.transitions == j.transitions && r.places == j.places && r.marking == j.marking
    ensures !solution.MarkingRepair? ==>
              var before := j.arcs.GetOr(map[]);
              var writes := ArcWrites(oldPlaceId, solution);
              && r.arcs.Some?
              && (forall k :: k in r.arcs.value <==>
                    (k in before && !Touches(k, oldPlaceId)) || exists i :: 0 <= i < |writes| && writes[i].0 == k)
              && (forall i :: 0 <= i < |writes| && Dicts.IsLastEntry(writes, i) ==> r.arcs.value[writes[i].0] == writes[i].1)
              && (forall k :: k in before && !Touches(k, oldPlaceId) && k !in Dicts.FromEntries(writes) ==>
                    r.arcs.value[k] == before[k])
  {
    if solution.MarkingRepair? then j
    else
      var kept := Untouched(j.arcs.GetOr(map[]), oldPlaceId);
      j.(arcs := Some(kept + Dicts.FromEntries(ArcWrites(oldPlaceId, solution))))
  }

  // ---------------------------------------------------------------------------
  // Whole repairs
  // ---------------------------------------------------------------------------

  /** The arcs left after deleting those touching `placeId` and writing the repair's own. */
  function RepairedArcs(arcs: map<string, int>, placeId: string, solution: AutoRepair): map<string, int> {
    Untouched(arcs, placeId) + Dicts.FromEntries(ArcWrites(placeId, solution))
  }

  /** `generateTextForNewNet` up to the final stringify: repair the place at `placeIndex`. */
  function NetObjectForNewNet(placeIndex: int, net: PetriNet, solution: AutoRepair): (r: JsonPetriNet)
    requires 0 <= placeIndex < |net.places|
    ensures r.transitions == TransitionIds(net.transitions) + MissingTransitions(net, solution)
    ensures !solution.ReplacePlace? ==> r.places == PlaceIds(net.places)
    ensures solution.ReplacePlace? ==>
              r.places == PlaceIds(net.places)[..placeIndex]
                          + ReplacementIds(net.places[placeIndex].id, |solution.places|)
                          + PlaceIds(net.places)[placeIndex + 1..]
    ensures var before := NetToText.JsonObjectFromNet(net).marking.GetOr(map[]);
            var id := net.places[placeIndex].id;
            && (solution.MarkingRepair? ==> r.marking == Some(before[id := solution.newMarking]))
            && (solution.ModifyPlace? ==>
                  r.marking == Some(before[id := if Truthy(solution.modifiedMarking) then solution.modifiedMarking.value
                                                 else net.places[placeIndex].marking]))
            && (solution.ReplacePlace? ==> r.marking == Some(before + ReplacementMarkings(id, solution.places)))
    ensures solution.MarkingRepair? ==> r.arcs == NetToText.JsonObjectFromNet(net).arcs
    ensures !solution.MarkingRepair? ==>
              r.arcs == Some(RepairedArcs(NetToText.JsonObjectFromNet(net).arcs.GetOr(map[]), net.places[placeIndex].id, solution))
  {
    var j := WithMissingTransitions(net, solution);
    var oldPlace := net.places[placeIndex];
    var placed := GeneratePlaceForSolution(oldPlace.id, oldPlace.marking, solution, j, Some(placeIndex));
    GenerateArcsForSolution(oldPlace.id, solution, placed.value)
  }

  /** Every other place keeps its marking entry, unless a replacement place of the same name overwrites it. */
  lemma OtherMarkingsKept(placeIndex: int, net: PetriNet, solution: AutoRepair, k: string)
    requires 0 <= placeIndex < |net.places|
    requires k in NetToText.MarkingObject(net.places) && k != net.places[placeIndex].id
    requires solution.ReplacePlace? ==> k !in ReplacementMarkings(net.places[placeIndex].id, solution.places)
    ensures var m := NetObjectForNewNet(placeIndex, net, solution).marking;
            m.Some? && k in m.value && m.value[k] == NetToText.MarkingObject(net.places)[k]
  {
    var id := net.places[placeIndex].id;
    var before := NetToText.MarkingObject(net.places);
    var i :| 0 <= i < |net.places| && net.places[i].marking > 0 && net.places[i].id == k;
    assert NetToText.JsonObjectFromNet(net).marking.GetOr(map[]) == before;
    var m := NetObjectForNewNet(placeIndex, net, solution).marking;
    match solution
    case MarkingRepair(v) =>
      MapUpdateKeeps(before, id, v, k);
    case ModifyPlace(_, _, v) =>
      MapUpdateKeeps(before, id, if Truthy(v) then v.value else net.places[placeIndex].marking, k);
    case ReplacePlace(places) =>
      assert m == Some(before + ReplacementMarkings(id, places));
  }

  lemma MapUpdateKeeps(before: map<string, int>, id: string, v: int, k: string)
    requires k in before && k != id
    ensures k in before[id := v] && before[id := v][k] == before[k]
  {
  }

  /**
   * A marking repair to 0 writes an entry `0`, which no projected net has,
   * so the repaired object is not the projection of any net.
   */
  lemma ZeroMarkingIsNoProjection(placeIndex: int, net: PetriNet, other: PetriNet)
    requires 0 <= placeIndex < |net.places|
    ensures var r := NetObjectForNewNet(placeIndex, net, MarkingRepair(0));
            && r.marking.Some? && r.marking.value[net.places[placeIndex].id] == 0
            && r != NetToText.JsonObjectFromNet(other)
  {
    var r := NetObjectForNewNet(placeIndex, net, MarkingRepair(0));
    var id := net.places[placeIndex].id;
    var before := NetToText.JsonObjectFromNet(net).marking.GetOr(map[]);
    assert r.marking == Some(before[id := 0]);
    NetToText.ProjectedMarkingsPositive(other);
  }

  /**
   * A replace-place repair keeps the removed place's marking entry although
   * the place itself leaves the place list, so the repaired object is not
   * the projection of any net either.
   */
  lemma ReplaceKeepsStaleMarking(placeIndex: int, net: PetriNet, places: seq<PlaceRepair>, other: PetriNet)
    requires 0 <= placeIndex < |net.places| && net.places[placeIndex].marking > 0
    requires forall k :: 0 <= k < |net.places| && k != placeIndex ==> net.places[k].id != net.places[placeIndex].id
    ensures var r := NetObjectForNewNet(placeIndex, net, ReplacePlace(places));
            var id := net.places[placeIndex].id;
            && r.marking.Some? && id in r.marking.value && id !in r.places
            && r != NetToText.JsonObjectFromNet(other)
  {
    var r := NetObjectForNewNet(placeIndex, net, ReplacePlace(places));
    var id := net.places[placeIndex].id;
    var before := NetToText.JsonObjectFromNet(net).marking.GetOr(map[]);
    assert id in NetToText.MarkingObject(net.places);
    assert id in before && r.marking == Some(before + ReplacementMarkings(id, places));
    ReplacedIdLeaves(PlaceIds(net.places), placeIndex, id, |places|);
    NetToText.ProjectedMarkingKeysArePlaces(other);
  }

  /** Splicing the replacements in for the only occurrence of an id removes the id from the list. */
  lemma ReplacedIdLeaves(ps: seq<string>, placeIndex: int, id: string, count: nat)
    requires 0 <= placeIndex < |ps| && ps[placeIndex] == id
    requires forall k :: 0 <= k < |ps| && k != placeIndex ==> ps[k] != id
    ensures id !in ps[..placeIndex] + ReplacementIds(id, count) + ps[placeIndex + 1..]
  {
    var ids := ReplacementIds(id, count);
    forall i | 0 <= i < |ids|
      ensures ids[i] != id
    {
      assert |ids[i]| > |id|;
    }
    assert id !in ps[..placeIndex] && id !in ps[placeIndex + 1..];
  }

  /** `repairNet` without the observable plumbing: `None` for an empty or unknown place id. */
  function RepairNet(placeId: string, net: PetriNet, solution: AutoRepair): (r: Option<JsonPetriNet>)
    ensures r.None? <==> placeId == "" || placeId !in PlaceIds(net.places)
    ensures r.Some? ==> exists i :: 0 <= i < |net.places| && net.places[i].id == placeId
                                    && (forall k :: 0 <= k < i ==> net.places[k].id != placeId)
                                    && r.value == NetObjectForNewNet(i, net, solution)
  {
    if placeId == "" then None
    else
      var i := FindPlace(net.places, placeId);
      if i < 0 then None else Some(NetObjectForNewNet(i, net, solution))
  }

  /** `places.findIndex((p) => p.id === placeId)`. */
  function FindPlace(places: seq<Place>, placeId: string): (i: int)
    ensures -1 <= i < |places|
    ensures i == -1 <==> placeId !in PlaceIds(places)
    ensures i >= 0 ==> places[i].id == placeId && forall k :: 0 <= k < i ==> places[k].id != placeId
  {
    if |places| == 0 then -1
    else if places[0].id == placeId then 0
    else
      var rest := places[1..];
      var i := FindPlace(rest, placeId);
      PlaceIdsTail(places, placeId);
      assert forall k :: 1 <= k < |places| ==> places[k] == rest[k - 1];
      if i < 0 then -1 else i + 1
  }

  // ---------------------------------------------------------------------------
  // Repairs that add a place for a missing transition
  // ---------------------------------------------------------------------------

  function Underscores(n: nat): (s: string)
    ensures |s| == n && forall i :: 0 <= i < n ==> s[i] == '_'
  {
    seq(n, i => '_')
  }

  /** `'p' + places.length`. */
  function PlaceBase(net: PetriNet): string {
    "p" + JsString.NatToString(|net.places|)
  }

  function MaxLength(ids: seq<string>): (n: nat)
    ensures forall i :: 0 <= i < |ids| ==> |ids[i]| <= n
  {
    if |ids| == 0 then 0
    else
      var rest := MaxLength(ids[1..]);
      assert forall i :: 1 <= i < |ids| ==> ids[i] == ids[1..][i - 1];
      if |ids[0]| > rest then |ids[0]| else rest
  }

  /** Append `'_'` to `base + Underscores(n)` until it is no existing id. */
  function FreshFrom(ids: seq<string>, base: string, n: nat): (id: string)
    ensures id !in ids
    ensures exists m: nat :: n <= m && id == base + Underscores(m)
                             && forall k :: n <= k < m ==> base + Underscores(k) in ids
    decreases MaxLength(ids) + 1 - |base| - n
  {
    var candidate := base + Underscores(n);
    if candidate in ids then
      var i :| 0 <= i < |ids| && ids[i] == candidate;
      assert |candidate| <= MaxLength(ids);
      FreshFrom(ids, base, n + 1)
    else
      candidate
  }

  /** The id of the place added for a missing transition: the first of `p<n>`, `p<n>_`, … not in use. */
  function FreshPlaceId(net: PetriNet): (id: string)
    ensures id !in PlaceIds(net.places)
    ensures exists m: nat :: id == PlaceBase(net) + Underscores(m)
                             && forall k :: 0 <= k < m ==> PlaceBase(net) + Underscores(k) in PlaceIds(net.places)
  {
    FreshFrom(PlaceIds(net.places), PlaceBase(net), 0)
  }

  /** The marking the new-transition repair reads via `'newMarking' in solution`. */
  function NewMarkingOf(solution: AutoRepair): Option<int> {
    match solution
    case MarkingRepair(m) => Some(m)
    case ModifyPlace(_, _, m) => m
    case ReplacePlace(_) => None
  }

  /**
   * `generateTextForNetWithTransition` up to the final stringify: a fresh
   * place is appended, marked when the repair's marking is truthy, and
   * connected as the repair prescribes. The name of the missing transition
   * is not used by the source either.
   */
  function NetObjectForNetWithTransition(newTransition: string, net: PetriNet, solution: AutoRepair): (r: JsonPetriNet)
    ensures r.transitions == TransitionIds(net.transitions) + MissingTransitions(net, solution)
    ensures r.places == PlaceIds(net.places) + [FreshPlaceId(net)]
    ensures Truthy(NewMarkingOf(solution)) ==>
              r.marking.Some? && r.marking.value == NetToText.JsonObjectFromNet(net).marking.GetOr(map[])[FreshPlaceId(net) := NewMarkingOf(solution).value]
    ensures !Truthy(NewMarkingOf(solution)) ==> r.marking == NetToText.JsonObjectFromNet(net).marking
    ensures solution.MarkingRepair? ==> r.arcs == NetToText.JsonObjectFromNet(net).arcs
    ensures !solution.MarkingRepair? ==>
              r.arcs == Some(RepairedArcs(NetToText.JsonObjectFromNet(net).arcs.GetOr(map[]), FreshPlaceId(net), solution))
  {
    var j := WithMissingTransitions(net, solution);
    var placeId := FreshPlaceId(net);
    var j1 := j.(places := j.places + [placeId]);
    var newMarking := NewMarkingOf(solution);
    var j2 := if Truthy(newMarking) then j1.(marking := Some(j1.marking.GetOr(map[])[placeId := newMarking.value])) else j1;
    GenerateArcsForSolution(placeId, solution, j2)
  }

  /**
   * On this path a replace-place repair writes its arcs for `<place>_0`,
   * `<place>_1`, … but only adds the fresh place itself: an arc of the first
   * replacement dangles unless some existing place happens to carry its name.
   */
  lemma ReplacementArcsDangle(newTransition: string, net: PetriNet, places: seq<PlaceRepair>)
    requires |places| > 0 && |places[0].incoming| > 0
    requires ReplacementId(FreshPlaceId(net), 0) !in PlaceIds(net.places)
    ensures var r := NetObjectForNetWithTransition(newTransition, net, ReplacePlace(places));
            var dangling := ReplacementId(FreshPlaceId(net), 0);
            && r.arcs.Some? && ArcKey(places[0].incoming[0].transitionLabel, dangling) in r.arcs.value
            && dangling !in r.places
  {
    var added := FreshPlaceId(net);
    var r := NetObjectForNetWithTransition(newTransition, net, ReplacePlace(places));
    FirstReplacementArcWritten(NetToText.JsonObjectFromNet(net).arcs.GetOr(map[]), added, places);
    assert r.places == PlaceIds(net.places) + [added];
    assert |ReplacementId(added, 0)| > |added|;
    LongerIdNotAppended(PlaceIds(net.places), added, ReplacementId(added, 0));
  }

  /** An id missing from `ids` and longer than `added` is missing from `ids + [added]`. */
  lemma LongerIdNotAppended(ids: seq<string>, added: string, id: string)
    requires id !in ids && |id| > |added|
    ensures id !in ids + [added]
  {
  }

  /** The first incoming arc of the first replacement place is among the repaired arcs. */
  lemma FirstReplacementArcWritten(arcs: map<string, int>, placeId: string, places: seq<PlaceRepair>)
    requires |places| > 0 && |places[0].incoming| > 0
    ensures ArcKey(places[0].incoming[0].transitionLabel, ReplacementId(placeId, 0)) in RepairedArcs(arcs, placeId, ReplacePlace(places))
  {
    var writes := ArcWrites(placeId, ReplacePlace(places));
    assert writes[0] == IncomingEntries(places[0].incoming, ReplacementId(placeId, 0))[0];
    assert writes[0].0 in Dicts.FromEntries(writes);
  }

  /** `repairNetForNewTransition` without the observable plumbing: `None` for an empty transition name. */
  function RepairNetForNewTransition(missingTransition: string, net: PetriNet, solution: AutoRepair): (r: Option<JsonPetriNet>)
    ensures r.None? <==> missingTransition == ""
    ensures r.Some? ==> r.value.places == PlaceIds(net.places) + [FreshPlaceId(net)]
    ensures r.Some? ==> r.value == NetObjectForNetWithTransition(missingTransition, net, solution)
  {
    if missingTransition == "" then None
    else Some(NetObjectForNetWithTransition(missingTransition, net, solution))
  }
}

/**
 * Decoding of the solver's variable assignments into repair facts
 * (`handleSolutions` in src/app/algorithms/regions/petri-net-regions.service.ts),
 * and the per-place assembly of `computeRegions` around it.
 *
 * The solver itself, its variable naming and `parseSolution` are not part of
 * this model: the inverse variable mapping, the solutions of each place and
 * the final parse are parameters.
 */
module Regions {
  import opened Wrappers

  /** What a solver variable stands for (solver-classes.ts). */
  datatype VariableType = InitialMarking | OutgoingTransitionWeight | IncomingTransitionWeight

  datatype SolutionVariable = SolutionVariable(varLabel: string, varType: VariableType)

  /** The kind of constraint set a solution came from; `SameIncming` keeps the source's spelling. */
  datatype SolutionType = Unbounded | SameIncming | SameOutgoing | ArcsSame

  /** One solver answer: its kind and `Object.entries(result.vars)`, in that order. */
  datatype ProblemSolution = ProblemSolution(solutionType: SolutionType, vars: seq<(string, int)>)

  /** The facts a solution is decoded into. */
  datatype ParsableSolution =
    | IncreaseMarking(newMarking: int)
    | IncomingArc(incoming: string, marking: int)
    | OutgoingArc(outgoing: string, marking: int)

  /** The solver's inverse variable mapping: `null` for a variable it did not create. */
  type InverseMapping = string -> Option<SolutionVariable>

  /** The value a decoded fact carries. */
  function ValueOf(p: ParsableSolution): int {
    match p
    case IncreaseMarking(m) => m
    case IncomingArc(_, m) => m
    case OutgoingArc(_, m) => m
  }

  /** One variable with its value. */
  function Decode(v: SolutionVariable, value: int): (p: ParsableSolution)
    ensures ValueOf(p) == value
    ensures p.IncreaseMarking? <==> v.varType == InitialMarking
    ensures p.IncomingArc? <==> v.varType == IncomingTransitionWeight
    ensures p.OutgoingArc? <==> v.varType == OutgoingTransitionWeight
    ensures p.IncomingArc? ==> p.incoming == v.varLabel
    ensures p.OutgoingArc? ==> p.outgoing == v.varLabel
  {
    match v.varType
    case InitialMarking => IncreaseMarking(value)
    case IncomingTransitionWeight => IncomingArc(v.varLabel, value)
    case OutgoingTransitionWeight => OutgoingArc(v.varLabel, value)
  }

  /** The filter: a non-zero value of a variable the solver knows. */
  predicate Emitted(inverse: InverseMapping, entry: (string, int)) {
    entry.1 != 0 && inverse(entry.0).Some?
  }

  /** The filter and the map over the entries of one solution. */
  function DecodeVars(vars: seq<(string, int)>, inverse: InverseMapping): (r: seq<ParsableSolution>)
    ensures |r| <= |vars|
    ensures forall p :: p in r ==> ValueOf(p) != 0
    decreases |vars|
  {
    if |vars| == 0 then []
    else
      var rest := DecodeVars(vars[1..], inverse);
      if Emitted(inverse, vars[0]) then [Decode(inverse(vars[0].0).value, vars[0].1)] + rest else rest
  }

  /** `solutions.flatMap(...)`: the decoded facts of each solution, solution after solution. */
  function HandleSolutions(solutions: seq<ProblemSolution>, inverse: InverseMapping): (r: seq<ParsableSolution>)
    ensures forall p :: p in r ==> ValueOf(p) != 0
    decreases |solutions|
  {
    if |solutions| == 0 then []
    else DecodeVars(solutions[0].vars, inverse) + HandleSolutions(solutions[1..], inverse)
  }

  /** The decoded fact of a variable, when it is emitted. */
  ghost predicate DecodesTo(vars: seq<(string, int)>, inverse: InverseMapping, p: ParsableSolution) {
    exists i :: 0 <= i < |vars| && Emitted(inverse, vars[i]) && p == Decode(inverse(vars[i].0).value, vars[i].1)
  }

  /** A fact is decoded exactly when some entry is emitted and decodes to it. */
  lemma {:induction false} DecodeVarsMembers(vars: seq<(string, int)>, inverse: InverseMapping, p: ParsableSolution)
    ensures p in DecodeVars(vars, inverse) <==> DecodesTo(vars, inverse, p)
    decreases |vars|
  {
    if |vars| > 0 {
      var rest := vars[1..];
      DecodeVarsMembers(rest, inverse, p);
      if DecodesTo(rest, inverse, p) {
        var i :| 0 <= i < |rest| && Emitted(inverse, rest[i]) && p == Decode(inverse(rest[i].0).value, rest[i].1);
        assert vars[i + 1] == rest[i];
      }
    }
  }

  /** Decoding respects the order of the entries: decoding a concatenation concatenates the decodings. */
  lemma {:induction false} DecodeVarsAppend(a: seq<(string, int)>, b: seq<(string, int)>, inverse: InverseMapping)
    ensures DecodeVars(a + b, inverse) == DecodeVars(a, inverse) + DecodeVars(b, inverse)
    decreases |a|
  {
    if |a| > 0 {
      assert (a + b)[0] == a[0];
      assert (a + b)[1..] == a[1..] + b;
      DecodeVarsAppend(a[1..], b, inverse);
    } else {
      assert a + b == b;
    }
  }

  /** Results of several solutions are concatenated in solution order. */
  lemma {:induction false} HandleSolutionsAppend(a: seq<ProblemSolution>, b: seq<ProblemSolution>, inverse: InverseMapping)
    ensures HandleSolutions(a + b, inverse) == HandleSolutions(a, inverse) + HandleSolutions(b, inverse)
    decreases |a|
  {
    if |a| > 0 {
      assert (a + b)[0] == a[0];
      assert (a + b)[1..] == a[1..] + b;
      HandleSolutionsAppend(a[1..], b, inverse);
    } else {
      assert a + b == b;
    }
  }

  /** The report for one invalid place; `S` is what `parseSolution` makes of the decoded facts. */
  datatype PlaceSolution<S> = PlaceSolution(place: string, solutions: S, invalidTraceCount: int)

  /** `Object.keys(m)` in some order: every key once. */
  ghost predicate KeysInOrder(order: seq<string>, m: map<string, int>) {
    && (forall i, j :: 0 <= i < j < |order| ==> order[i] != order[j])
    && (forall p :: p in order <==> p in m)
  }

  /**
   * `computeRegions` once the solver is loaded: nothing when no place is
   * invalid, otherwise one report per invalid place, in key order.
   */
  function ComputeRegions<S>(invalidPlaces: map<string, int>, order: seq<string>,
                             solve: string -> seq<ProblemSolution>,
                             inverseFor: string -> InverseMapping,
                             parse: seq<ParsableSolution> -> S): (r: seq<PlaceSolution<S>>)
    requires KeysInOrder(order, invalidPlaces)
    ensures invalidPlaces == map[] ==> r == []
    ensures |r| == |order|
    ensures forall i :: 0 <= i < |r| ==> r[i].place == order[i]
    ensures forall p :: p in invalidPlaces <==> exists i :: 0 <= i < |r| && r[i].place == p
    ensures forall i :: 0 <= i < |r| ==>
              && r[i].place in invalidPlaces
              && r[i].invalidTraceCount == invalidPlaces[r[i].place]
              && r[i].solutions == parse(HandleSolutions(solve(r[i].place), inverseFor(r[i].place)))
  {
    if |order| == 0 then []
    else
      assert order[0] in invalidPlaces;
      var r := seq(|order|, i requires 0 <= i < |order| =>
        PlaceSolution(order[i], parse(HandleSolutions(solve(order[i]), inverseFor(order[i]))), invalidPlaces[order[i]]));
      assert forall i :: 0 <= i < |order| ==> r[i].place == order[i];
      assert forall p :: p in invalidPlaces ==> exists i :: 0 <= i < |order| && order[i] == p;
      r
  }
}

/**
 * The line-based reader of partial-order logs (`parsePartialOrders` in
 * src/app/services/parser/parser.service.ts).
 *
 * A log is a header line naming its type, an attributes header followed
 * by one line per column name, an events header, and then one line per
 * event. The event lines are cut into fields by a regular expression,
 * which is a parameter here (`tokenize`), as is `Number()` (`toNumber`)
 * and the header keywords (`LogKeys`).
 */
module LogParser {
  import opened Wrappers
  import JsString

  /** The keywords of the log format. */
  datatype LogKeys = LogKeys(
    logType: string, attributes: string, events: string,
    caseId: string, conceptName: string, eventId: string, follows: string,
    netType: string)

  /** A JavaScript number, as `Number(...)` returns it. */
  datatype JsNumber = NaN | Finite(value: real) | Infinite(positive: bool)

  /** `a !== b` on numbers: NaN differs from everything, itself included. */
  predicate StrictlyDiffers(a: JsNumber, b: JsNumber) {
    a.NaN? || b.NaN? || a != b
  }

  /** Truthiness of a possibly undefined string. */
  predicate Truthy(s: Option<string>) {
    s.Some? && s.value != ""
  }

  datatype EventItem = EventItem(id: Option<string>, eventLabel: Option<string>)
  /** Weight 1 and no breakpoints on every log arc, so only the endpoints are kept. */
  datatype PoArc = PoArc(source: string, target: Option<string>)
  datatype PartialOrder = PartialOrder(events: seq<EventItem>, arcs: seq<PoArc>)

  datatype Phase = Initial | TypeRead | AttributesRead | EventsRead

  /** The group indices of the four known columns, and the position of the next attribute line. */
  datatype Columns = Columns(caseId: int, conceptName: int, eventId: int, follows: int, counter: int)
  const DefaultColumns := Columns(0, 1, -1, -1, 1)

  datatype Column = CaseColumn | NameColumn | IdColumn | FollowsColumn

  /** The case currently being read: its id and the order built so far. */
  datatype OpenCase = OpenCase(caseId: JsNumber, order: PartialOrder)

  /** Everything the reader carries from one line to the next. */
  datatype Scan = Scan(phase: Phase, columns: Columns, open: Option<OpenCase>,
                       done: seq<PartialOrder>, lastId: Option<string>)
  const Start := Scan(Initial, DefaultColumns, None, [], None)

  /** One line read: go on, give up with `[]` and one message, or a thrown TypeError. */
  datatype Step = Continue(scan: Scan) | Abort(message: string) | Crash

  /** A regular-expression match: the whole line at index 0, then the capture groups, `None` where undefined. */
  type Groups = seq<Option<string>>

  datatype LogOutcome = Orders(orders: seq<PartialOrder>) | TypeError
  datatype LogResult = LogResult(outcome: LogOutcome, errors: set<string>)

  function TypeMessage(keys: LogKeys): string {
    "The type of the file with the net has to be '" + keys.netType + "'"
  }
  const InvalidParts := "The log contains invalid parts"
  const UnableToParse := "Unable to parse log"
  const NoTraces := "No parsable traces where found"

  /** `match[i]`: undefined outside the match, including at index -1. */
  function Group(m: Groups, i: int): (g: Option<string>)
    ensures (i < 0 || i >= |m|) ==> g.None?
  {
    if 0 <= i < |m| then m[i] else None
  }

  /** `Number(match[i])`: `Number(undefined)` is NaN. */
  function CaseNumber(g: Option<string>, toNumber: string -> JsNumber): JsNumber {
    if g.None? then NaN else toNumber(g.value)
  }

  // ---------------------------------------------------------------------------
  // Attribute lines
  // ---------------------------------------------------------------------------

  /** Which column an attribute line names, the first match winning. */
  function Classify(keys: LogKeys, line: string): Option<Column> {
    if line == keys.caseId then Some(CaseColumn)
    else if line == keys.conceptName then Some(NameColumn)
    else if line == keys.eventId then Some(IdColumn)
    else if line == keys.follows then Some(FollowsColumn)
    else None
  }

  function ColumnOf(c: Columns, col: Column): int {
    match col
    case CaseColumn => c.caseId
    case NameColumn => c.conceptName
    case IdColumn => c.eventId
    case FollowsColumn => c.follows
  }

  /** One attribute line: the column it names moves to the current position, and the position advances. */
  function ReadAttribute(keys: LogKeys, c: Columns, line: string): (r: Columns)
    ensures r.counter == c.counter + 1
    ensures forall col :: ColumnOf(r, col) == if Classify(keys, line) == Some(col) then c.counter else ColumnOf(c, col)
  {
    var r := match Classify(keys, line)
      case Some(CaseColumn) => c.(caseId := c.counter)
      case Some(NameColumn) => c.(conceptName := c.counter)
      case Some(IdColumn) => c.(eventId := c.counter)
      case Some(FollowsColumn) => c.(follows := c.counter)
      case None => c;
    r.(counter := c.counter + 1)
  }

  /** The attribute lines read in turn. */
  function ReadAttributes(keys: LogKeys, c: Columns, lines: seq<string>): (r: Columns)
    ensures r.counter == c.counter + |lines|
    decreases |lines|
  {
    if |lines| == 0 then c else ReadAttributes(keys, ReadAttribute(keys, c, lines[0]), lines[1..])
  }

  /** A column is the position of the LAST attribute line naming it. */
  lemma {:induction false} LastAttributeWins(keys: LogKeys, c: Columns, lines: seq<string>, col: Column, k: int)
    requires 0 <= k < |lines| && Classify(keys, lines[k]) == Some(col)
    requires forall n :: k < n < |lines| ==> Classify(keys, lines[n]) != Some(col)
    ensures ColumnOf(ReadAttributes(keys, c, lines), col) == c.counter + k
    decreases |lines|
  {
    var c' := ReadAttribute(keys, c, lines[0]);
    if k == 0 {
      AttributeAbsentKeeps(keys, c', lines[1..], col);
    } else {
      LastAttributeWins(keys, c', lines[1..], col, k - 1);
    }
  }

  /** A column no attribute line names keeps its default. */
  lemma {:induction false} AttributeAbsentKeeps(keys: LogKeys, c: Columns, lines: seq<string>, col: Column)
    requires forall n :: 0 <= n < |lines| ==> Classify(keys, lines[n]) != Some(col)
    ensures ColumnOf(ReadAttributes(keys, c, lines), col) == ColumnOf(c, col)
    decreases |lines|
  {
    if |lines| > 0 {
      AttributeAbsentKeeps(keys, ReadAttribute(keys, c, lines[0]), lines[1..], col);
    }
  }

  // ---------------------------------------------------------------------------
  // Event lines
  // ---------------------------------------------------------------------------

  /** The follows field: first `[` and first `]` removed, split on commas, trimmed, empty ids dropped. */
  function FollowList(field: string): (r: seq<string>)
    ensures forall x :: x in r ==> x != ""
  {
    var parts := JsString.Split(JsString.RemoveFirst(JsString.RemoveFirst(field, '['), ']'), ',');
    MapNonEmpty(parts, JsString.Trim)
  }

  /** `parts.map(f).filter(s => !!s)`. */
  function MapNonEmpty(parts: seq<string>, f: string -> string): (r: seq<string>)
    ensures forall x :: x in r ==> x != ""
    ensures |r| <= |parts|
    decreases |parts|
  {
    if |parts| == 0 then []
    else
      var t := f(parts[0]);
      if t == "" then MapNonEmpty(parts[1..], f) else [t] + MapNonEmpty(parts[1..], f)
  }

  /** Some part maps to `x`. */
  ghost predicate MapsTo(parts: seq<string>, f: string -> string, x: string) {
    exists i :: 0 <= i < |parts| && f(parts[i]) == x
  }

  /** What is kept is exactly the non-empty images of the parts. */
  lemma {:induction false} MapNonEmptyMembers(parts: seq<string>, f: string -> string, x: string)
    ensures x in MapNonEmpty(parts, f) <==> x != "" && MapsTo(parts, f, x)
    decreases |parts|
  {
    if |parts| > 0 {
      var t := f(parts[0]);
      var rest := parts[1..];
      MapNonEmptyMembers(rest, f, x);
      if MapsTo(rest, f, x) {
        var i :| 0 <= i < |rest| && f(rest[i]) == x;
        assert parts[i + 1] == rest[i];
      }
      if MapsTo(parts, f, x) && x != t {
        var i :| 0 <= i < |parts| && f(parts[i]) == x;
        assert rest[i - 1] == parts[i];
      }
    }
  }

  /** `addArc`: an arc already present is ignored. */
  function AddArc(po: PartialOrder, a: PoArc): (r: PartialOrder)
    ensures r.events == po.events
    ensures a in r.arcs
    ensures forall b :: b in r.arcs <==> b in po.arcs || b == a
    ensures |po.arcs| <= |r.arcs| && r.arcs[..|po.arcs|] == po.arcs
  {
    if a in po.arcs then po else po.(arcs := po.arcs + [a])
  }

  /** One arc from each listed id to `target`, in list order. */
  function AddFollowArcs(po: PartialOrder, follows: seq<string>, target: Option<string>): (r: PartialOrder)
    ensures r.events == po.events
    ensures forall b :: b in r.arcs <==> b in po.arcs || (b.target == target && b.source in follows)
    decreases |follows|
  {
    if |follows| == 0 then po
    else
      var r := AddFollowArcs(AddArc(po, PoArc(follows[0], target)), follows[1..], target);
      assert forall x :: x in follows <==> x == follows[0] || x in follows[1..];
      r
  }

  /** What the reader makes of a matched event line. */
  datatype EventFields = EventFields(caseId: JsNumber, name: Option<string>, id: Option<string>)

  /** The case id, the concept name and the event id of a match; without a name, the event id becomes the name. */
  function Fields(m: Groups, c: Columns, toNumber: string -> JsNumber): (f: EventFields)
    ensures f.caseId == CaseNumber(Group(m, c.caseId), toNumber)
    ensures f.name.None? ==> f.id.None?
    ensures Group(m, c.conceptName).Some? ==> f.name == Group(m, c.conceptName) && f.id == Group(m, c.eventId)
    ensures Group(m, c.conceptName).None? ==> f.name == Group(m, c.eventId) && f.id.None?
  {
    var name := Group(m, c.conceptName);
    var id := Group(m, c.eventId);
    var caseId := CaseNumber(Group(m, c.caseId), toNumber);
    if name.None? && id.Some? then EventFields(caseId, id, None) else EventFields(caseId, name, id)
  }

  /** The item `generateEventItem(eventId ?? conceptName, conceptName)` creates. */
  function ItemOf(f: EventFields): EventItem {
    EventItem(if f.id.Some? then f.id else f.name, f.name)
  }

  /** Whether the line starts a new case: the first event line, or a case id that is `!==` the current one. */
  predicate Opens(open: Option<OpenCase>, caseId: JsNumber) {
    open.None? || StrictlyDiffers(open.value.caseId, caseId)
  }

  /** The orders read so far, the open one included, in the order they will be returned. */
  function OrdersSoFar(s: Scan): seq<PartialOrder> {
    s.done + if s.open.Some? then [s.open.value.order] else []
  }

  /**
   * A matched event line. The follows column, when there is one, must be
   * defined: `match[followsIndex].includes(...)` throws otherwise.
   */
  function ReadEvent(s: Scan, m: Groups, toNumber: string -> JsNumber): (r: Step)
    ensures r.Abort? == false
    ensures r.Crash? <==> s.columns.follows != -1 && Group(m, s.columns.follows).None?
    ensures r.Continue? ==> r.scan.open.Some?
    ensures r.Continue? && r.scan.open.Some? ==>
              var f := Fields(m, s.columns, toNumber);
              var o := r.scan.open.value.order;
              && r.scan.open.value.caseId == f.caseId
              && r.scan.phase == s.phase && r.scan.columns == s.columns
              && r.scan.lastId == ItemOf(f).id
              && |o.events| > 0 && o.events[|o.events| - 1] == ItemOf(f)
              && (Opens(s.open, f.caseId) ==>
                    && r.scan.done == OrdersSoFar(s)
                    && o.events == [ItemOf(f)])
              && (!Opens(s.open, f.caseId) ==>
                    && r.scan.done == s.done
                    && o.events == s.open.value.order.events + [ItemOf(f)])
  {
    var c := s.columns;
    if c.follows != -1 && Group(m, c.follows).None? then Crash
    else
      var f := Fields(m, c, toNumber);
      var field := Group(m, c.follows);
      var isPartialOrder := c.follows != -1 && '[' in field.value && ']' in field.value;
      var follows := if c.follows == -1 then [] else FollowList(field.value);
      var opens := Opens(s.open, f.caseId);
      var done := if opens then OrdersSoFar(s) else s.done;
      var po := if opens then PartialOrder([], []) else s.open.value.order;
      var last := if opens then None else s.lastId;
      var item := ItemOf(f);
      var po1 := po.(events := po.events + [item]);
      var po2 :=
        if isPartialOrder then AddFollowArcs(po1, follows, item.id)
        else if Truthy(last) then AddArc(po1, PoArc(last.value, item.id))
        else po1;
      Continue(Scan(s.phase, c, Some(OpenCase(f.caseId, po2)), done, item.id))
  }

  /** One non-blank, trimmed line, in the state the reader is in. */
  function StepLine(keys: LogKeys, tokenize: string -> Option<Groups>, toNumber: string -> JsNumber,
                    s: Scan, line: string): (r: Step)
    ensures s.phase == Initial ==>
              r == if line == keys.logType then Continue(s.(phase := TypeRead)) else Abort(TypeMessage(keys))
    ensures s.phase == TypeRead ==>
              r == if line == keys.attributes then Continue(s.(phase := AttributesRead)) else Abort(InvalidParts)
    ensures s.phase == AttributesRead ==>
              r == Continue(if line == keys.events then s.(phase := EventsRead)
                            else s.(columns := ReadAttribute(keys, s.columns, line)))
    ensures s.phase == EventsRead && line == keys.events ==> r == Abort(UnableToParse)
    ensures s.phase == EventsRead && line != keys.events && tokenize(line).None? ==> r == Continue(s)
    ensures s.phase == EventsRead && line != keys.events && tokenize(line).Some? ==>
              r == ReadEvent(s, tokenize(line).value, toNumber)
    ensures r.Continue? && r.scan.phase != EventsRead ==> r.scan.open.None? || r.scan.open == s.open
  {
    match s.phase
    case Initial =>
      if line == keys.logType then Continue(s.(phase := TypeRead)) else Abort(TypeMessage(keys))
    case TypeRead =>
      if line == keys.attributes then Continue(s.(phase := AttributesRead)) else Abort(InvalidParts)
    case AttributesRead =>
      if line != keys.events then Continue(s.(columns := ReadAttribute(keys, s.columns, line)))
      else Continue(s.(phase := EventsRead))
    case EventsRead =>
      if line == keys.events then Abort(UnableToParse)
      else
        match tokenize(line)
        case None => Continue(s)
        case Some(m) => ReadEvent(s, m, toNumber)
  }

  predicate Blank(line: string) {
    JsString.Trim(line) == ""
  }

  /** Every order read so far, the open one included, has at least one event. */
  ghost predicate NoEmptyOrder(s: Scan) {
    forall o :: o in OrdersSoFar(s) ==> |o.events| > 0
  }

  /** The lines in turn, blank ones skipped, stopping at the first line that gives up or throws. */
  function Run(keys: LogKeys, tokenize: string -> Option<Groups>, toNumber: string -> JsNumber,
               s: Scan, lines: seq<string>): (r: Step)
    ensures NoEmptyOrder(s) && r.Continue? ==> NoEmptyOrder(r.scan)
    decreases |lines|
  {
    if |lines| == 0 then Continue(s)
    else if Blank(lines[0]) then Run(keys, tokenize, toNumber, s, lines[1..])
    else
      match StepLine(keys, tokenize, toNumber, s, JsString.Trim(lines[0]))
      case Continue(s') =>
        assert NoEmptyOrder(s) ==> NoEmptyOrder(s') by {
          if NoEmptyOrder(s) && s'.open.Some? && s'.open != s.open {
            StepKeepsOrdersNonEmpty(keys, tokenize, toNumber, s, JsString.Trim(lines[0]));
          }
        }
        Run(keys, tokenize, toNumber, s', lines[1..])
      case other => other
  }

  lemma StepKeepsOrdersNonEmpty(keys: LogKeys, tokenize: string -> Option<Groups>, toNumber: string -> JsNumber,
                                s: Scan, line: string)
    requires NoEmptyOrder(s)
    requires StepLine(keys, tokenize, toNumber, s, line).Continue?
    ensures NoEmptyOrder(StepLine(keys, tokenize, toNumber, s, line).scan)
  {
    var s' := StepLine(keys, tokenize, toNumber, s, line).scan;
    if s.phase == EventsRead && tokenize(line).Some? {
      var o := s'.open.value.order;
      assert OrdersSoFar(s') == s'.done + [o];
    } else {
      assert OrdersSoFar(s') == OrdersSoFar(s);
    }
  }

  /** `parsePartialOrders(content, errors)`. */
  function ParsePartialOrders(keys: LogKeys, tokenize: string -> Option<Groups>, toNumber: string -> JsNumber,
                              content: string, errors: set<string>): (r: LogResult)
    ensures r.outcome.Orders? ==> forall o :: o in r.outcome.orders ==> |o.events| > 0
    ensures r.outcome.TypeError? ==> r.errors == errors
    ensures r.outcome.Orders? && |r.outcome.orders| == 0 ==> r.errors != {}
    ensures r.outcome.Orders? && |r.outcome.orders| > 0 ==> r.errors == errors
  {
    match Run(keys, tokenize, toNumber, Start, JsString.Split(content, '\n'))
    case Abort(message) => LogResult(Orders([]), errors + {message})
    case Crash => LogResult(TypeError, errors)
    case Continue(s) =>
      var orders := OrdersSoFar(s);
      if |orders| == 0 && errors == {} then LogResult(Orders([]), {NoTraces})
      else LogResult(Orders(orders), errors)
  }

  // ---------------------------------------------------------------------------
  // Properties of the reader
  // ---------------------------------------------------------------------------

  function NonBlank(lines: seq<string>): (r: seq<string>)
    ensures forall x :: x in r ==> !Blank(x)
    ensures |r| <= |lines|
    decreases |lines|
  {
    if |lines| == 0 then []
    else if Blank(lines[0]) then NonBlank(lines[1..])
    else [lines[0]] + NonBlank(lines[1..])
  }

  /** Blank lines change nothing: reading every line is reading the non-blank ones. */
  lemma {:induction false} BlankLinesSkipped(keys: LogKeys, tokenize: string -> Option<Groups>,
                                             toNumber: string -> JsNumber, s: Scan, lines: seq<string>)
    ensures Run(keys, tokenize, toNumber, s, lines) == Run(keys, tokenize, toNumber, s, NonBlank(lines))
    decreases |lines|
  {
    if |lines| > 0 {
      var rest := NonBlank(lines[1..]);
      if Blank(lines[0]) {
        BlankLinesSkipped(keys, tokenize, toNumber, s, lines[1..]);
      } else {
        var nb := NonBlank(lines);
        assert nb[0] == lines[0] && nb[1..] == rest;
        match StepLine(keys, tokenize, toNumber, s, JsString.Trim(lines[0]))
        case Continue(s') =>
          BlankLinesSkipped(keys, tokenize, toNumber, s', lines[1..]);
        case _ =>
      }
    }
  }

  /** The first non-blank line must be the log type; anything else gives `[]` and one message. */
  lemma FirstLineIsLogType(keys: LogKeys, tokenize: string -> Option<Groups>, toNumber: string -> JsNumber,
                           content: string, errors: set<string>)
    requires var ls := NonBlank(JsString.Split(content, '\n')); |ls| > 0 && JsString.Trim(ls[0]) != keys.logType
    ensures ParsePartialOrders(keys, tokenize, toNumber, content, errors)
            == LogResult(Orders([]), errors + {TypeMessage(keys)})
  {
    var ls := NonBlank(JsString.Split(content, '\n'));
    BlankLinesSkipped(keys, tokenize, toNumber, Start, JsString.Split(content, '\n'));
    assert !Blank(ls[0]);
    assert StepLine(keys, tokenize, toNumber, Start, JsString.Trim(ls[0])) == Abort(TypeMessage(keys));
    assert Run(keys, tokenize, toNumber, Start, ls) == Abort(TypeMessage(keys));
  }

  /** The second non-blank line must be the attributes header. */
  lemma SecondLineIsAttributes(keys: LogKeys, tokenize: string -> Option<Groups>, toNumber: string -> JsNumber,
                               content: string, errors: set<string>)
    requires var ls := NonBlank(JsString.Split(content, '\n'));
             |ls| > 1 && JsString.Trim(ls[0]) == keys.logType && JsString.Trim(ls[1]) != keys.attributes
    ensures ParsePartialOrders(keys, tokenize, toNumber, content, errors)
            == LogResult(Orders([]), errors + {InvalidParts})
  {
    var ls := NonBlank(JsString.Split(content, '\n'));
    BlankLinesSkipped(keys, tokenize, toNumber, Start, JsString.Split(content, '\n'));
    assert !Blank(ls[0]) && !Blank(ls[1]);
    var s1 := Start.(phase := TypeRead);
    assert StepLine(keys, tokenize, toNumber, Start, JsString.Trim(ls[0])) == Continue(s1);
    assert Run(keys, tokenize, toNumber, Start, ls) == Run(keys, tokenize, toNumber, s1, ls[1..]);
    assert ls[1..][0] == ls[1];
    assert StepLine(keys, tokenize, toNumber, s1, JsString.Trim(ls[1])) == Abort(InvalidParts);
    assert Run(keys, tokenize, toNumber, s1, ls[1..]) == Abort(InvalidParts);
  }

  /** An empty log (blank lines only) finds no traces. */
  lemma EmptyLogHasNoTraces(keys: LogKeys, tokenize: string -> Option<Groups>, toNumber: string -> JsNumber,
                            content: string, errors: set<string>)
    requires NonBlank(JsString.Split(content, '\n')) == []
    ensures ParsePartialOrders(keys, tokenize, toNumber, content, errors)
            == LogResult(Orders([]), if errors == {} then {NoTraces} else errors)
  {
    BlankLinesSkipped(keys, tokenize, toNumber, Start, JsString.Split(content, '\n'));
  }

  /** Arcs of an order in which every arc joins an event to the event read just before it. */
  ghost predicate Sequential(o: PartialOrder) {
    forall a :: a in o.arcs ==>
      exists i :: 1 <= i < |o.events| && o.events[i - 1].id == Some(a.source) && o.events[i].id == a.target
  }

  /** The event line takes the sequential path: no follows column, or a follows field without both brackets. */
  predicate SequentialLine(c: Columns, m: Groups) {
    c.follows == -1
    || (Group(m, c.follows).Some? && !('[' in Group(m, c.follows).value && ']' in Group(m, c.follows).value))
  }

  /**
   * On the sequential path an event gets exactly one new arc, from the event
   * read just before it in the same case when that one has a truthy id, and
   * every arc of the case still joins an event to the one before it.
   */
  lemma SequentialWithoutFollows(s: Scan, m: Groups, toNumber: string -> JsNumber)
    requires SequentialLine(s.columns, m)
    requires s.open.Some? ==> Sequential(s.open.value.order) && |s.open.value.order.events| > 0
    requires s.open.Some? ==> s.lastId == s.open.value.order.events[|s.open.value.order.events| - 1].id
    ensures var r := ReadEvent(s, m, toNumber);
            var f := Fields(m, s.columns, toNumber);
            var opens := Opens(s.open, f.caseId);
            var before := if opens then [] else s.open.value.order.arcs;
            var last := if opens then None else s.lastId;
            && r.Continue? && Sequential(r.scan.open.value.order)
            && forall a :: a in r.scan.open.value.order.arcs <==>
                             a in before || (Truthy(last) && a == PoArc(last.value, ItemOf(f).id))
  {
    var r := ReadEvent(s, m, toNumber);
    var f := Fields(m, s.columns, toNumber);
    var item := ItemOf(f);
    var o := r.scan.open.value.order;
    if !Opens(s.open, f.caseId) {
      var prev := s.open.value.order;
      var n := |prev.events|;
      assert o.events == prev.events + [item];
      forall a | a in o.arcs
        ensures exists i :: 1 <= i < |o.events| && o.events[i - 1].id == Some(a.source) && o.events[i].id == a.target
      {
        if a in prev.arcs {
          var i :| 1 <= i < n && prev.events[i - 1].id == Some(a.source) && prev.events[i].id == a.target;
          assert o.events[i - 1] == prev.events[i - 1] && o.events[i] == prev.events[i];
        } else {
          assert o.events[n - 1] == prev.events[n - 1] && o.events[n] == item;
        }
      }
    }
  }

  /** With a bracketed follows field, the event gets exactly one new arc from each listed id. */
  lemma FollowsGiveArcs(s: Scan, m: Groups, toNumber: string -> JsNumber)
    requires s.columns.follows != -1
    requires Group(m, s.columns.follows).Some?
    requires var field := Group(m, s.columns.follows).value; '[' in field && ']' in field
    ensures var r := ReadEvent(s, m, toNumber);
            var f := Fields(m, s.columns, toNumber);
            var follows := FollowList(Group(m, s.columns.follows).value);
            var before := if Opens(s.open, f.caseId) then [] else s.open.value.order.arcs;
            && r.Continue?
            && forall a :: a in r.scan.open.value.order.arcs <==>
                             a in before || (a.target == ItemOf(f).id && a.source in follows)
  {
  }
}

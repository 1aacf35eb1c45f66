# Model repair with partial orders — the data-transformation layer in Dafny

This project models the pure data layer around the repair engine of the
Petri-net repair tool. The engine itself, the ILP constraint builder and the
GLPK solver, is not modelled. Everything here works on the JSON form of a net:
a list of transition ids, a list of place ids, an optional `marking` object
and an optional `arcs` object keyed `"source,target"`.

- **Repair synthesis** (`NetCommand`, in `net_command.dfy`). An `AutoRepair`
  is a `marking`, `modify-place` or `replace-place` repair. Applying it
  appends the transitions the repair needs and the net lacks. It then
  rewrites the marking and the place list, with replace-place splicing in
  `p_0 … p_{n-1}`. Last, it deletes every arc touching the old place and
  writes the new arcs. The repair for a missing transition adds a fresh
  place `p<n>`, `p<n>_`, … instead.
- **Net to JSON object** (`NetToText`). This is the canonical projection the
  synthesis starts from.
- **Net parser** (`NetParser`). It validates the object `JSON.parse`
  returns: duplicate ids are dropped, and malformed or same-kind arcs are
  skipped. An arc naming an unknown element throws. A marking entry for an
  unknown place, or with a negative value, is ignored.
- **Round trip** (`NetRoundTrip`). Parsing the object the projection
  produces and projecting the parsed net gives the object back.
- **Solution decoding** (`Regions`). Each solver variable with a non-zero
  value and a known meaning becomes an `increase-marking`, `incoming-arc`
  or `outgoing-arc` fact. Solutions are decoded in order and assembled into
  one report per invalid place.
- **Log parser** (`LogParser`). This is the line-based state machine that
  reads a `.log` file into partial orders: type line, attribute header,
  attribute lines that move the column indices, then event lines. A case
  change opens a new order. Arcs come from the previous event or from a
  bracketed follows list.
- **PNML and XES import** (`PnmlToRun`, `XesParser`). Already-parsed XML
  becomes a net object or a list of traces.
- **Upload gate** (`Upload`). A batch of files is accepted only when every
  name's trimmed extension (the text after the last dot) is `txt`, `pn` or
  `pnml`.

Shared pieces:
- `Wrappers` holds `Option` and `Result`.
- `JsString` holds the JavaScript string primitives the code relies on:
  `trim`, `split`, `replace`, and decimal rendering.
- `Dicts` holds sequential writes into a JavaScript object, where the last
  write to a key wins.
- `Nets` holds the net and JSON-net datatypes.

Behaviour of the code that the model keeps as written:
- `handleSolutions` drops every variable whose value is 0, including an
  `INITIAL_MARKING` variable.
- The replacement places of a replace-place repair are named
  `<place>_<index>` with no check against existing ids.
- A modify-place repair whose `newMarking` is 0 or absent writes the old
  marking back. It does not write 0.
- The new-transition repair tests `newMarking ?? 0 > 0`. This parses as
  `newMarking ?? (0 > 0)`, so the test is truthiness and a negative
  `newMarking` is written (`NetCommand.NetObjectForNetWithTransition`).
- A replace-place repair on the new-transition path writes arcs to places
  `<place>_<index>` that it never adds to the place list
  (`NetCommand.ReplacementArcsDangle`).
- A repaired object need not survive parse-then-project. A marking repair
  to 0 writes a `0` entry, which no projected net has
  (`NetCommand.ZeroMarkingIsNoProjection`). A replace-place repair keeps
  the removed place's marking entry after the place has left the place list
  (`NetCommand.ReplaceKeepsStaleMarking`).
- An `arcs` or `marking` field that is `null`, or a document that is just
  `null`, passes the parser's `typeof … === 'object'` test or reaches a field
  access and throws a TypeError that records no message
  (`NetParser.ParsePetriNet`).

## Model

| member | source | states |
|---|---|---|
| NetCommand.RequiredTransitions | src/app/services/repair/net-command.service.ts:182-204 | the labels returned are exactly those some incoming or outgoing arc of the repair (of any of its places, for replace-place) mentions, each once, in the order of their first occurrence among the arc definitions (incoming before outgoing, place by place); a marking repair requires none |
| NetCommand.MissingTransitions | src/app/services/repair/net-command.service.ts:155-161 | a label is missing exactly when the repair references it and no transition of the net carries it as its label; each once, in the first-occurrence order of the required labels |
| NetCommand.WithMissingTransitions | src/app/services/repair/net-command.service.ts:152-162 | the existing transition ids stay first and unchanged, the missing labels follow in order, and places, marking and arcs are untouched |
| NetCommand.ReplacementIdInjective | src/app/services/repair/net-command.service.ts:231 | `${placeId}_${index}` names a different place for every index |
| NetCommand.Splice | src/app/services/repair/net-command.service.ts:237 | `splice(start, 1, ...items)` replaces exactly the element at `start` by the items, so the length changes by one less than their number |
| NetCommand.GeneratePlaceForSolution | src/app/services/repair/net-command.service.ts:206-242 | throws exactly for a replace-place repair without an old place index; a marking repair writes its marking, even 0; a modify-place repair writes a truthy new marking and otherwise the old one; a replace-place repair splices the replacement ids in at the old index and marks exactly the replacements with a truthy marking; transitions and arcs are untouched |
| NetCommand.ReplacementEntriesShape | src/app/services/repair/net-command.service.ts:274-282 | every arc a replace-place repair writes joins a replacement place `<place>_<i>` to a transition that place's incoming or outgoing definitions name |
| NetCommand.Untouched | src/app/services/repair/net-command.service.ts:257-262 | an arc survives the deletion exactly when neither comma-component of its key is the old place, with its weight unchanged |
| NetCommand.GenerateArcsForSolution | src/app/services/repair/net-command.service.ts:244-283 | a marking repair leaves the object unchanged; otherwise the arc keys are the surviving ones plus the written ones, the last write to a key decides its weight, surviving arcs not rewritten keep their weight, and transitions, places and marking are untouched |
| NetCommand.NetObjectForNewNet | src/app/services/repair/net-command.service.ts:147-180 | the repaired object: transitions extended by the missing ones; places unchanged, or spliced for replace-place; the marking object is the net's with the repaired place's entry set as each repair kind prescribes, or, for replace-place, with the truthy replacement markings added; arcs unchanged for a marking repair, otherwise the net's arcs not touching the place plus the repair's writes, the last write to a key winning |
| NetCommand.OtherMarkingsKept | src/app/services/repair/net-command.service.ts:152-171 | every other place's marking entry survives the repair with its value, unless a replacement place of the same name overwrites it |
| NetCommand.ZeroMarkingIsNoProjection | src/app/services/repair/net-command.service.ts:217-219 | a marking repair to 0 writes a `0` entry, so the repaired object is the projection of no net |
| NetCommand.ReplaceKeepsStaleMarking | src/app/services/repair/net-command.service.ts:225-238 | after a replace-place repair of a marked place, its marking entry remains while the place has left the place list, so the object is the projection of no net |
| NetCommand.RepairNet | src/app/services/repair/net-command.service.ts:54-69 | nothing for an empty place id or one no place has; otherwise the repair of the first place with that id |
| NetCommand.FindPlace | src/app/services/repair/net-command.service.ts:62 | the index of the first place with the id, or -1 exactly when there is none |
| NetCommand.FreshPlaceId | src/app/services/repair/net-command.service.ts:126-129 | the fresh id is no existing place id, and it is `p` and the number of places, followed by the fewest underscores that make it so |
| NetCommand.NetObjectForNetWithTransition | src/app/services/repair/net-command.service.ts:109-145 | the fresh place is appended after all existing places, marked with the repair's marking when it is truthy, with the marking object otherwise unchanged; missing transitions are appended; a marking repair leaves the arcs unchanged, any other repair leaves the arcs not touching the fresh id plus the repair's writes for that id |
| NetCommand.ReplacementArcsDangle | src/app/services/repair/net-command.service.ts:126-142 | a replace-place repair on this path writes an arc for `<fresh>_0`, a place that is not in the resulting place list |
| NetCommand.RepairNetForNewTransition | src/app/services/repair/net-command.service.ts:28-44 | nothing for an empty transition name; otherwise exactly the object the new-transition repair builds, whose places are the old ones plus the fresh one |
| NetToText.MarkingObject | src/app/services/parser/net-to-text.func.ts:14-22 | the `marking` object holds exactly the ids of places with a positive marking; a later place with the same id overwrites an earlier one |
| NetToText.ArcsObject | src/app/services/parser/net-to-text.func.ts:24-29 | the `arcs` object has one key `source,target` per arc and the weight of the last arc with that key |
| NetToText.JsonObjectFromNet | src/app/services/parser/net-to-text.func.ts:4-32 | transitions and places are the ids in order, zero-marked places included; `marking` and `arcs` are absent exactly when nothing would be written to them |
| NetToText.MarkingObjectAgrees | src/app/services/parser/net-to-text.func.ts:16-21 | place lists with the same ids and the same positive markings give the same `marking` object, whatever their zero or negative markings |
| NetToText.TextIgnoresLabelsAndZeroMarkings | src/app/services/parser/net-to-text.func.ts:38-40 | the text is stringify after the object: nets differing only in transition labels and non-positive markings give the same text |
| Nets.ArcKeySplits | src/app/services/parser/parser.service.ts:279 | the key of two comma-free ids splits back into exactly those two ids |
| NetParser.AddTransitions | src/app/services/parser/parser.service.ts:239-252 | the ids are exactly the old ones and the listed ones, each once, labelled by their id, and in list order when the list has no duplicates |
| NetParser.AddPlaces | src/app/services/parser/parser.service.ts:262-275 | the place ids are exactly the old ones and the listed ones, each once, with marking 0, in list order when the list has no duplicates |
| NetParser.FindElement | src/app/services/parser/parser.service.ts:287-293 | an id is found as a transition when a transition has it, as a place only when no transition has it and a place does |
| NetParser.ParseArc | src/app/services/parser/parser.service.ts:278-322 | one arc entry throws exactly when its key splits in two and an endpoint is unknown, naming both ids; it adds its arc exactly when the key splits into a transition and a place not yet joined, and otherwise is skipped |
| NetParser.ParseArcs | src/app/services/parser/parser.service.ts:277-323 | fails exactly when some entry names an unknown endpoint, with the message of the first such entry; otherwise the arcs are those the entries add one after another, in entry order, every one joining a transition and a place, with no duplicate endpoints |
| NetParser.FindPlaceIndex | src/app/services/parser/parser.service.ts:327 | the index of the first place with the id, or -1 exactly when there is none |
| NetParser.ApplyMarking | src/app/services/parser/parser.service.ts:325-344 | the place ids are unchanged, markings stay non-negative, and a marking only changes to a non-negative value written for that id |
| NetParser.ParsePetriNet | src/app/services/parser/parser.service.ts:206-363 | a syntax error or a missing transitions or places array gives no net and one message; it throws its own error exactly when the arc entries fail, recording the message; a `null` document, `arcs` or `marking` throws a TypeError recording nothing; no arcs and no transitions gives no net; an accepted net records nothing, has distinct ids, bipartite distinct arcs and non-negative markings, and carries the parsed transitions, the parsed arcs and the places with the marking entries applied |
| NetParser.UnknownEndpointThrows | src/app/services/parser/parser.service.ts:287-303 | an arc entry whose source is neither a listed transition nor a listed place makes the parser throw |
| NetParser.ParseAccepts | src/app/services/parser/parser.service.ts:346-362 | a net with a transition whose arcs all parse is returned as built, recording nothing |
| NetRoundTrip.ParseCanonicalArcs | src/app/services/parser/parser.service.ts:278-322 | entries with distinct keys that each join a transition and a place are all added as arcs, in entry order |
| NetRoundTrip.ApplyMarkingLookup | src/app/services/parser/parser.service.ts:326-343 | a place's marking after the entries is the last non-negative value written for its id, or its old marking |
| NetRoundTrip.ParseThenProject | src/app/services/parser/parser.service.ts:231-362 | parsing the object the projection produces (distinct ids, bipartite arc keys, positive markings), in any entry order, accepts it with no new message, and projecting the parsed net gives the object back |
| Regions.Decode | src/app/algorithms/regions/petri-net-regions.service.ts:84-102 | an initial-marking variable decodes to increase-marking, an incoming weight to incoming-arc, an outgoing weight to outgoing-arc, each carrying the variable's label and value |
| Regions.DecodeVars | src/app/algorithms/regions/petri-net-regions.service.ts:76-103 | no decoded fact carries the value 0, and there are never more facts than variables |
| Regions.DecodeVarsMembers | src/app/algorithms/regions/petri-net-regions.service.ts:77-80 | a fact is decoded exactly when some variable has a non-zero value, a non-null inverse mapping, and decodes to it |
| Regions.DecodeVarsAppend | src/app/algorithms/regions/petri-net-regions.service.ts:76-81 | the decoding preserves the order of the variables |
| Regions.HandleSolutionsAppend | src/app/algorithms/regions/petri-net-regions.service.ts:75 | results of several solutions are concatenated in solution order |
| Regions.ComputeRegions | src/app/algorithms/regions/petri-net-regions.service.ts:35-54 | no invalid place gives no report; otherwise one report per invalid place, the i-th for the i-th key of the given key order, carrying that place's invalid trace count and the parse of its decoded solutions |
| LogParser.ReadAttribute | src/app/services/parser/parser.service.ts:93-104 | an attribute line moves the column it names to the current position and advances the position; other columns stay |
| LogParser.LastAttributeWins | src/app/services/parser/parser.service.ts:94-103 | a column ends at the position of the last attribute line naming it |
| LogParser.AttributeAbsentKeeps | src/app/services/parser/parser.service.ts:47-51 | a column no attribute line names keeps its default |
| LogParser.MapNonEmptyMembers | src/app/services/parser/parser.service.ts:141-143 | the follows ids are exactly the non-empty trimmed comma-separated parts |
| LogParser.AddArc | src/app/services/parser/parser.service.ts:365-373 | the arc is present afterwards, no other arc is added, existing arcs keep their order, and the events are untouched |
| LogParser.AddFollowArcs | src/app/services/parser/parser.service.ts:164-172 | the arcs afterwards are the old ones plus one from each listed id to the new event |
| LogParser.Fields | src/app/services/parser/parser.service.ts:123-129 | the case id is `Number` of its group, NaN when undefined; with a concept name, name and id are their matched groups; without one, the event id becomes the name and the id is dropped |
| LogParser.ReadEvent | src/app/services/parser/parser.service.ts:118-183 | throws exactly when a follows column exists and its group is undefined; otherwise the event is appended to the open case, or a case id `!==` the current one closes the order into the result and opens one holding just this event |
| LogParser.StepLine | src/app/services/parser/parser.service.ts:65-189 | a wrong type line or attribute header aborts with its message; in the attributes phase the events header switches to events and any other line moves the column it names; the events header inside events aborts; an unmatched event line is skipped and a matched one is read as an event |
| LogParser.Run | src/app/services/parser/parser.service.ts:59-190 | every order read so far stays non-empty |
| LogParser.BlankLinesSkipped | src/app/services/parser/parser.service.ts:60-63 | reading all lines is reading the non-blank ones |
| LogParser.FirstLineIsLogType | src/app/services/parser/parser.service.ts:66-78 | a first non-blank line other than the log type gives `[]` and the type message |
| LogParser.SecondLineIsAttributes | src/app/services/parser/parser.service.ts:80-91 | a second non-blank line other than the attribute header gives `[]` and the invalid-parts message |
| LogParser.EmptyLogHasNoTraces | src/app/services/parser/parser.service.ts:196-202 | a log of blank lines gives `[]`, with the no-traces message when no error was recorded before |
| LogParser.ParsePartialOrders | src/app/services/parser/parser.service.ts:42-204 | every returned order has an event; an empty result always comes with a recorded error; a non-empty one records nothing new |
| LogParser.SequentialWithoutFollows | src/app/services/parser/parser.service.ts:163-181 | without a follows column, or with a follows field lacking a bracket, the event gets exactly one new arc, from the previous event of its case when that event's id is truthy, and every arc of the case joins an event to the one read just before it |
| LogParser.FollowsGiveArcs | src/app/services/parser/parser.service.ts:131-172 | with a bracketed follows field, the event gets an arc from exactly each listed id, and no other new arc |
| PnmlToRun.PageOf | src/app/services/upload/pnml/pnml-to-run.fn.ts:8 | the page is `net.page` when present, else the net itself |
| PnmlToRun.LabelMap | src/app/services/upload/pnml/pnml-to-run.fn.ts:15-20 | exactly the named transitions' ids are mapped, to the last such transition's name with whitespace replaced by `_` |
| PnmlToRun.TransitionList | src/app/services/upload/pnml/pnml-to-run.fn.ts:16-25 | one entry per transition, in order: the whitespace-replaced name when it is non-empty, else the id |
| PnmlToRun.MarkingObject | src/app/services/upload/pnml/pnml-to-run.fn.ts:27-36 | exactly the places with a positive initial marking, an absent marking counting as 0 |
| PnmlToRun.ArcEntries | src/app/services/upload/pnml/pnml-to-run.fn.ts:38-47 | each arc writes the key of its translated endpoints with its inscription, defaulting to 1 |
| PnmlToRun.ArcsObject | src/app/services/upload/pnml/pnml-to-run.fn.ts:42-46 | the `arcs` object is absent exactly when the page has no arc |
| PnmlToRun.NetObjectFromPage | src/app/services/upload/pnml/pnml-to-run.fn.ts:10-47 | the place ids in order; a `marking` object exactly when some place is marked |
| PnmlToRun.UnnamedKeepsIds | src/app/services/upload/pnml/pnml-to-run.fn.ts:39-40 | without named transitions every id is kept, in the transition list and in the arc keys |
| PnmlToRun.NamedEndpointsTranslated | src/app/services/upload/pnml/pnml-to-run.fn.ts:39-46 | an arc from a named transition is keyed by that transition's label, not its id |
| PnmlToRun.LabelsHaveNoWhitespace | src/app/services/upload/pnml/pnml-to-run.fn.ts:19-21 | a named transition's listed label contains no whitespace |
| XesParser.FindFirst | src/app/services/upload/xes/xes-parser.ts:41 | the value of the first attribute with the key, absent exactly when no attribute has it |
| XesParser.XesFind | src/app/services/upload/xes/xes-parser.ts:39-48 | a list gives its first match; a single attribute gives its value only when its key matches |
| XesParser.KeptEvents | src/app/services/upload/xes/xes-parser.ts:15-18 | an event is kept exactly when its lifecycle attribute is absent or `complete`; a single event is kept as itself or dropped |
| XesParser.KeptEventsAppend | src/app/services/upload/xes/xes-parser.ts:15-18 | filtering distributes over concatenation, so with the one-event case the kept events, their number and their order are those `filter` keeps |
| XesParser.EventNames | src/app/services/upload/xes/xes-parser.ts:22-31 | succeeds exactly when every kept event has a non-empty name, giving each whitespace-replaced name in order; otherwise throws naming the trace and the first nameless event |
| XesParser.Traces | src/app/services/upload/xes/xes-parser.ts:12-34 | one output trace per input trace, in order, each the names of its kept events; fails exactly when some trace has a nameless kept event, with the message of the first such trace |
| XesParser.TraceShape | src/app/services/upload/xes/xes-parser.ts:12-33 | each output trace is as long as its trace's kept events, and no name contains whitespace |
| XesParser.CompletedTraceKeepsAll | src/app/services/upload/xes/xes-parser.ts:15-31 | a trace whose events are all completed and named keeps every event |
| Upload.Extension | src/app/services/upload/upload.service.ts:89-91 | the extension contains no dot |
| Upload.ExtensionIsLastSegment | src/app/services/upload/upload.service.ts:89-91 | the extension is an end of the name, and is either the whole name or preceded by a dot, so it is the text after the last dot |
| Upload.ValidIffTrimmedAllowed | src/app/services/upload/upload.service.ts:81-87 | a name passes exactly when its trimmed extension is allowed; the emptiness test adds nothing |
| Upload.ExtensionOfDotted | src/app/services/upload/upload.service.ts:90 | the extension of `base.ext` is `ext` for a dot-free `ext`, whatever dots `base` holds |
| Upload.AllowedNamesPass | src/app/services/upload/upload.service.ts:5 | `base.txt`, `base.pn` and `base.pnml` pass |
| Upload.BareAllowedNamePasses | src/app/services/upload/upload.service.ts:86-90 | a bare `pn`, `txt` or `pnml` with no dot passes |
| Upload.TrailingDotRefused | src/app/services/upload/upload.service.ts:83-85 | a name ending in a dot has an empty extension and is refused |
| Upload.OtherExtensionsRefused | src/app/services/upload/upload.service.ts:86 | any other extension without surrounding whitespace is refused, so `PN` is refused |
| Upload.Rejections | src/app/services/upload/upload.service.ts:28-36 | there are no toasts exactly when every file name is valid |
| Upload.CheckFiles | src/app/services/upload/upload.service.ts:25-39 | true exactly when every name is valid, with one toast per refused file, in order, after looking at every file |
| Upload.UploadFiles | src/app/services/upload/upload.service.ts:58-77 | nothing is emitted when any file is refused, otherwise every content exactly once, in the order the reads complete |

## Left out

- `JSON.parse`, `JSON.stringify` and `parseXml` are outside the model. Their results are datatypes, and stringify is a function parameter.
- The log event regular expression (parser.service.ts:40) is a tokenizer parameter returning the match groups. `Number(...)` is a parameter too.
- The parsing constants of the log format are a `LogKeys` parameter, because parsing-constants.ts is not part of this model.
- `addTransition`, `addPlace`, `addArc`, `addEventItem`, `generateEventItem`, `getElementsWithArcs` and `setRefs` are not part of this model. `addTransition`, `addPlace` and `addArc` are modelled as rejecting a duplicate id or a duplicate source–target pair. `addEventItem` is modelled as an unconditional append that returns the item's id (`LogParser.ItemOf`). Element lookup searches transitions, then places. `setRefs` is left out.
- `determineInitialAndFinalEvents` and `concatEvents` only fill in derived event references, which the model does not carry.
- toastr messages, rxjs pipelines, the undo and redo stacks, DOM file selection and `FileReader` are left out; the order in which the reads complete is a parameter of `Upload.UploadFiles`. Errors are a set of strings.
- The ILP solver, its variable naming and `parseSolution` (parse-solutions.fn.ts) are not part of this model. The inverse mapping, each place's solutions and the final parse are parameters.
- JavaScript object key order is not kept. Objects are maps, and the order of `Object.entries` is an explicit entry sequence where it matters.
- Numbers are integers. The solver's values and PNML inscriptions are not fractional here.
- `xesFind` distinguishes a single attribute from a list. The same single-element case for a trace's event list is not modelled; events are always a list.
- `NetToText.TextFromNet`: stated only through `NetToText.TextIgnoresLabelsAndZeroMarkings`, because stringify is abstract.
- `PnmlToRun.RunTextFromPnml`: the text is the abstract stringify of `PnmlToRun.NetObjectFromPage`, and it carries no contract of its own.
- `XesParser.ParseXes`: it succeeds exactly when `XesParser.Traces` does, and the text itself is the abstract stringify.
- `JsString.RemoveFirst`: stated only up to length; `FollowList` needs nothing more.
- `LogParser.ParsePartialOrders`: the orders returned are not related event by event to the input lines. Only non-emptiness and the error bookkeeping are stated; the per-line behaviour is in `LogParser.ReadEvent` and `LogParser.StepLine`.
- `Regions.ComputeRegions`: the order of the reports follows a given key order, not JavaScript's key ordering rules.

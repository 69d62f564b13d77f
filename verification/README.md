# Multi-reference tracer: a Dafny model

regula evaluates Rego policies with OPA and needs to know which paths of the
`input` document a policy actually read. It gets this from the engine's trace
events, using a tracer (`pkg/rego/multireftracer.go`). The tracer keeps one
frame (`Query`) per active query. Each frame holds:

- a provenance map (`InputVars`), which says for every variable which locations
  of `input` its value came from;
- the bindings of the latest event;
- the rule head;
- the provenance to hand to a child query (`NextInput`);
- a failed flag;
- the provenance of the rule's return value;
- the set of `input` paths read so far (`InputAccesses`), as dotted strings.

The frames form a stack. Each event carries its query identifier and its
parent's identifier. From these, `TraceEvent` does the following:

1. It pops frames until the event's own frame or its parent is on top.
2. The accesses of every popped frame that did not fail are merged into the
   frame below.
3. It pushes a child frame, seeded with the parent's `NextInput`, when the
   parent is on top.
4. The top frame handles the event.

The model is in four files:

- `ast.dfy` (`Ast`) holds the part of OPA's terms, references, expressions and
  events that the tracer looks at. `input` is the variable `input`, as in OPA.
- `provenance.dfy` (`Provenance`) is the reference algebra. It covers:
  - provenance records (`InputRef`) and the prefix test;
  - `ExpandRef`;
  - rendering a reference to a dotted string (`RenderRefToString`,
    `RenderVarToStrings`);
  - substituting bindings into a reference (`RenderRef`);
  - recognising `var = ref` (`coerceAssignmentOperands`).

  Each loop of the source is a method, proved equal to a specification
  function. The properties are lemmas about those functions.
- `frames.dfy` (`Frames`) has two parts:
  - `FrameState`, the value of a frame's fields, and `Handle`, what one event
    does to it;
  - the class `Query`, whose methods update the fields in place. Each method is
    proved to perform the corresponding step on `State()`.
- `tracer.dfy` (`Tracing`) has the stack and `TraceEvent` at two levels:
  - a specification on sequences of frame states (`Unwind`, `Synced`, `Trace`);
  - the classes `QueryStack` and `QueryTracer`, which work on `Query` objects.
    `QueryTracer.TraceEvent` is proved to turn the stack's states into
    `Trace` of the old states.

  The lemmas about `Trace` cover:
  - how the identifiers on the stack follow the call tree (`TraceIds`);
  - what every frame holds afterwards (`TraceFrames`);
  - merge-on-success (`UnwindCarried`, `CarriedMember`);
  - the frame invariant (`TraceOk`).

`InputVars.Contains` is map membership (`v in vars`) throughout.

## Model

| member | source | states |
|---|---|---|
| Provenance.IsParentSplits | pkg/rego/multireftracer.go:19-21 | A record is a parent of `r` exactly when `r` is the record's location followed by the rest of `r`. |
| Provenance.Expand | pkg/rego/multireftracer.go:111-134 | A head that is not tracked expands to nothing. |
| Provenance.ExpandRef | pkg/rego/multireftracer.go:111-134 | The nested loop returns the expansion of `head.tail`: for each record of `head` in order, and only when that record's location is a prefix of `tail`, each of its locations in order, extended by the rest of `tail`. |
| Provenance.ExpansionMember | pkg/rego/multireftracer.go:116-123 | `x` is in the expansion if and only if some record whose location is a prefix of `tail` lists a location `l` with `x == l + tail[len(location)..]`. |
| Provenance.ExpansionLength | pkg/rego/multireftracer.go:116-123 | The expansion has one entry for each location of each matching record. |
| Provenance.ExpansionAppend | pkg/rego/multireftracer.go:116-123 | Expanding the concatenation of two record lists gives the expansion of the first list followed by that of the second, so results come in record order. |
| Provenance.ExpansionExtends | pkg/rego/multireftracer.go:117-120 | If `head.tail` reaches `x`, then `head.tail.more` reaches `x.more`. |
| Provenance.ExpansionOfWholeVariable | pkg/rego/multireftracer.go:116-121 | With an empty tail, records that cover the whole variable give their locations unchanged. |
| Provenance.AddRecord | pkg/rego/multireftracer.go:32-46 | The provenance map only grows. Well-formed maps stay well formed. No variable other than `v` is added. |
| Provenance.AddRecordEffect | pkg/rego/multireftracer.go:32-46 | An empty expansion changes nothing. Otherwise `v`'s list is its old list plus exactly one record `(pathInVar, expansion)`, `v` becomes tracked, and every other variable keeps its list. |
| Provenance.AddRecordExpand | pkg/rego/multireftracer.go:32-46 | After the record is added, `v.rest` expands to what it expanded to before. If `pathInVar` is a prefix of `rest`, this is followed by the expansion of `head.tail` extended by the rest of `rest`. Every other variable expands as before. |
| Provenance.AssignmentChain | pkg/rego/multireftracer.go:294-300 | After `y = x.t0` is recorded, every location that `y.rest` reaches was reached by `y.rest` before, or is reached by `x.t0.rest`. |
| Provenance.RenderPiece | pkg/rego/multireftracer.go:51-69 | A segment makes the rendering fail if and only if it is a variable other than `input` with no binding. |
| Provenance.PiecesFail | pkg/rego/multireftracer.go:48-74 | Rendering fails if and only if some segment is an unbound variable. A bound variable whose value is not a string or number does not make it fail. |
| Provenance.PiecesBound | pkg/rego/multireftracer.go:51-70 | Rendering gives at most one piece per segment. |
| Provenance.RenderUnbound | pkg/rego/multireftracer.go:65-67 | Any unbound variable segment makes the result `""`. |
| Provenance.RenderRefToString | pkg/rego/multireftracer.go:48-74 | The loop returns `Render`: `""` when a variable is unbound. Otherwise it joins with `.` the following: `input` for the root; quoted strings and number text; the values of bound variables that are strings or numbers. Other segments are skipped. |
| Provenance.NonEmptyRendersMember | pkg/rego/multireftracer.go:79-85 | A string is among the renderings if and only if it is non-empty and some location renders to it. |
| Provenance.NonEmptyRendersAppend | pkg/rego/multireftracer.go:79-85 | Rendering a concatenation of location lists concatenates the renderings, so order is kept. |
| Provenance.RenderAll | pkg/rego/multireftracer.go:80-84 | The inner loop returns the non-empty renderings of a record's locations, in order. |
| Provenance.RenderVarToStrings | pkg/rego/multireftracer.go:76-88 | Returns the non-empty renderings of all locations of all of `v`'s records, in order. An untracked `v` gives none. |
| Provenance.RenderVarIsRenderedExpansion | pkg/rego/multireftracer.go:76-88 | When every record of `v` covers the whole variable, rendering `v` is rendering the expansion of `v` with an empty tail. |
| Provenance.Substituted | pkg/rego/multireftracer.go:90-109 | Substitution never lengthens a reference. |
| Provenance.RenderRef | pkg/rego/multireftracer.go:90-109 | The loop returns the reference with these segments kept: `input`, strings, numbers, and unbound variables. Bound variables are replaced by their values and every other segment is dropped. |
| Provenance.RenderAfterSubstitution | pkg/rego/multireftracer.go:90-109 | For bindings that never bind a variable to a variable, rendering the substituted reference with no bindings equals rendering the original with the bindings. |
| Provenance.CoerceAssignmentOperands | pkg/rego/multireftracer.go:457-468 | A pair is returned if and only if the first two operands are `var, ref` or `ref, var`. The variable and the reference are those operands. |
| Provenance.CoerceSymmetric | pkg/rego/multireftracer.go:457-468 | Swapping the two operands of a unification does not change the result. |
| Frames.NewFrame | pkg/rego/multireftracer.go:344-356 | A new frame has the event's ids, no accesses, and is not failed. `input` is its only tracked variable, and only when the seed is not nil. Seeding with well-formed records gives a frame satisfying the frame invariant. |
| Frames.RootRecords | pkg/rego/multireftracer.go:409-416 | The root seed is well formed. |
| Frames.RootSeeding | pkg/rego/multireftracer.go:409-416 | In the root frame, `input.tail` reaches exactly one location, `input.tail`. |
| Frames.TermExpansionLength | pkg/rego/multireftracer.go:243-270 | An untracked variable, or a reference without a tracked variable head, reads no location. A tracked one reads one location per location of every record of its head that covers the path it reads. |
| Frames.TermAccesses | pkg/rego/multireftracer.go:243-279 | A term never adds `""`. An untracked variable, or a reference without a tracked variable head, adds nothing. |
| Frames.TermAccessesMember | pkg/rego/multireftracer.go:243-279 | A term adds a string if and only if it is non-empty and some location the term reads renders to it. |
| Frames.OperandAccesses | pkg/rego/multireftracer.go:323-325 | The accesses of all operands never include `""`. |
| Frames.OperandAccessesMember | pkg/rego/multireftracer.go:323-325 | A string is added if and only if some operand adds it. |
| Frames.AssignedVars | pkg/rego/multireftracer.go:289-322 | Operators other than `eq`, including `object.get`, leave the map unchanged. The map only grows, stays well formed, and never tracks the empty name. |
| Frames.ExtractVarsStepEffect | pkg/rego/multireftracer.go:281-327 | `ExtractInputVars` changes only the map and the accesses, and both only grow. It never adds `""`. Another node, or an expression that breaks out of the type switch, changes nothing. |
| Frames.EvalAccesses | pkg/rego/multireftracer.go:281-327 | On `Eval`, an expression that breaks out (a unification that is not `var = ref` or `ref = var`, or an `object.get` whose operands 0, 1 and 3 are not a variable, a string and a variable) changes neither the map nor the accesses. Any other expression first records the assignment, then adds the accesses of every operand, read with the updated map. |
| Frames.UnificationWithValueRecordsNothing | pkg/rego/multireftracer.go:289-293 | `input.a = "x"` breaks out before the operand loop, so the frame records no access to `input.a`. |
| Frames.AccessFromEventStepEffect | pkg/rego/multireftracer.go:329-336 | `ExtractInputAccessFromEvent` changes only the accesses, which only grow and never gain `""`. Another node changes nothing. |
| Frames.AssignmentAddsRecord | pkg/rego/multireftracer.go:289-301 | For `v = head.tail` with a tracked head and a non-empty expansion, `v` gains exactly one record with an empty location in `v`. |
| Frames.SubstitutedLocation | pkg/rego/multireftracer.go:203-223 | Substitution keeps a location's length. It gives up if and only if some segment is not a variable, string or number. |
| Frames.SubstitutedLocationIsRenderRef | pkg/rego/multireftracer.go:203-223 | Where the substitution succeeds, it equals what `RenderRef` computes. |
| Frames.SubstitutedLocations | pkg/rego/multireftracer.go:201-228 | Every location keeps its length and position. |
| Frames.SubstitutedLocationsAll | pkg/rego/multireftracer.go:201-228 | The locations of a record are substituted if and only if every segment of every location is a variable, a string or a number. Then each location becomes what `RenderRef` computes for it. |
| Frames.SubstitutedRecordsAll | pkg/rego/multireftracer.go:198-234 | The records are substituted if and only if every segment of every location of every record is a variable, a string or a number. Then every record keeps its location in the variable and its number of locations, and each location becomes what `RenderRef` computes for it: bound variables become their values, and `input` and unbound variables stay. |
| Frames.SubstitutedRecordsShape | pkg/rego/multireftracer.go:198-234 | Every record keeps its location in the variable and its number of locations. Well-formed records stay well formed. |
| Frames.InputOverride | pkg/rego/multireftracer.go:193-238 | `with input as v` gives nil when `v` is not tracked. It also gives nil when the value is not a variable: the source then looks up the empty name, which is never tracked. It gives well-formed records when it gives any. |
| Frames.InputOverrideTracked | pkg/rego/multireftracer.go:193-238 | `with input as v` for a tracked `v` gives nil if and only if some location of `v`'s records has a segment that is not a variable, a string or a number. Otherwise it gives `v`'s records, each location with the current bindings substituted as `RenderRef` does. |
| Frames.WithNextInput | pkg/rego/multireftracer.go:185-240 | The result of the `with` loop is well formed whenever the map and the current value are. |
| Frames.WithNextInputFirst | pkg/rego/multireftracer.go:185-240 | The first clause that targets `input` decides the result. When no clause targets `input`, `NextInput` is left unchanged. |
| Frames.NextInputAfter | pkg/rego/multireftracer.go:178-241 | Without `with` clauses, `NextInput` becomes the records of `input`, or nil. Well-formedness is kept. |
| Frames.NextInputStepEffect | pkg/rego/multireftracer.go:178-241 | `ExtractNextInput` changes only `NextInput`, and another node changes nothing. An expression without `with` clauses hands on the records of `input`. The frame invariant is kept. |
| Frames.Handle | pkg/rego/multireftracer.go:149-176 | Every event keeps the ids and overwrites the bindings. The failed flag becomes `failed or op == Fail` and is never reset. Accesses only grow and the map only grows. Only `Eval` changes the map, and only `Eval` and `Index` change accesses and `NextInput`. `Enter` on a rule records its head. `Exit` with a variable head sets the return records to that variable's records. The frame invariant is kept. |
| Frames.SubstituteLocation | pkg/rego/multireftracer.go:203-223 | The segment loop computes `SubstitutedLocation`. |
| Frames.SubstituteLocations | pkg/rego/multireftracer.go:201-228 | The location loop computes `SubstitutedLocations`. |
| Frames.SubstituteRecords | pkg/rego/multireftracer.go:198-234 | The record loop computes `SubstitutedRecords`, and gives up as soon as a location does. |
| Frames.Query.NewQuery | pkg/rego/multireftracer.go:344-356 | The new object's fields are `NewFrame(e, inputRefs)`. |
| Frames.Query.AddInputRef | pkg/rego/multireftracer.go:32-46 | Only the map changes, and it becomes `AddRecord` of the old map. |
| Frames.Query.AddRenderings | pkg/rego/multireftracer.go:255-259 | Only the access set changes: it gains the non-empty renderings of the expansion. |
| Frames.Query.ExtractInputAccess | pkg/rego/multireftracer.go:243-279 | Only the access set changes: it gains `TermAccesses` of the term. |
| Frames.Query.ExtractOperandAccesses | pkg/rego/multireftracer.go:323-325 | Only the access set changes: it gains the accesses of every operand. |
| Frames.Query.ExtractAssignment | pkg/rego/multireftracer.go:289-322 | Only the map changes, and it becomes `AssignedVars` of the old map. It reports whether the expression breaks out of the type switch (`SkipsOperands`). |
| Frames.Query.ExtractInputVars | pkg/rego/multireftracer.go:281-327 | The fields become `ExtractVarsStep` of the old fields. The assignment is recorded first. The operands are read with the updated map only when the expression does not break out of the type switch. |
| Frames.Query.ExtractInputAccessFromEvent | pkg/rego/multireftracer.go:329-336 | Only the access set changes: it gains the accesses of the expression's operands. |
| Frames.Query.ExtractNextInput | pkg/rego/multireftracer.go:178-241 | Only `NextInput` changes, and it becomes `NextInputAfter`. |
| Frames.Query.MergeInputAccesses | pkg/rego/multireftracer.go:338-342 | Only the access set changes: it becomes its union with the other frame's set. |
| Frames.Query.HandleEvent | pkg/rego/multireftracer.go:149-176 | The fields become `Handle` of the old fields. |
| Tracing.TopMatch | pkg/rego/multireftracer.go:428-441 | The pop loop stops at the topmost frame whose id is the event's id or its parent's id. No frame above it matches. |
| Tracing.SyncIds | pkg/rego/multireftracer.go:406-449 | After an event, the stack is non-empty and its top is the event's own query. All but the top are a prefix of the old stack, and the stack grows by at most one. |
| Tracing.CarriedMember | pkg/rego/multireftracer.go:436-438 | An access reaches the frame below the popped run if and only if some popped frame recorded it, and neither that frame nor any frame between it and the frame below failed. |
| Tracing.FailedFrameDeliversNothing | pkg/rego/multireftracer.go:436-438 | A failed popped frame delivers nothing, including what it received from above. |
| Tracing.CarriedMergeLast | pkg/rego/multireftracer.go:434-439 | Merging the top frame into the one below, on success, does not change what the run delivers. |
| Tracing.MergeDown | pkg/rego/multireftracer.go:434-439 | One pop removes the top frame and changes nothing else below the new top. |
| Tracing.Unwind | pkg/rego/multireftracer.go:428-441 | The pop loop ends with a non-empty stack whose top matches the event. |
| Tracing.UnwindCarried | pkg/rego/multireftracer.go:428-441 | After the pop loop, every frame below the stopping frame is unchanged, and the popped frames are gone. The stopping frame gains exactly what the popped frames carry down. |
| Tracing.UnwindOk | pkg/rego/multireftracer.go:428-441 | The pop loop keeps the frame invariant. |
| Tracing.UnwindIds | pkg/rego/multireftracer.go:428-441 | The pop loop keeps the identifiers up to the stopping frame. |
| Tracing.Synced | pkg/rego/multireftracer.go:407-447 | Before the event is handled, the stack is non-empty. |
| Tracing.Trace | pkg/rego/multireftracer.go:406-449 | `TraceEvent` handles the event on the frame left on top by the pop-and-push step, and on no other frame. That frame's bindings become the event's. |
| Tracing.TraceIds | pkg/rego/multireftracer.go:406-449 | The identifiers after `TraceEvent` are the ones `SyncIds` describes. |
| Tracing.TraceFrames | pkg/rego/multireftracer.go:406-449 | After `TraceEvent`: frames below the stopping frame are untouched; the stopping frame has received what was carried down. Then one of two things happens. Either a child `NewFrame(e, stopping frame's NextInput)` is pushed and handles the event, exactly when the event's parent is the stopping frame and the event's own frame was not on top. Or the stopping frame handles the event. |
| Tracing.TraceSameFrame | pkg/rego/multireftracer.go:427-448 | An event from the top frame pops nothing and is handled by the top frame. |
| Tracing.TraceOtherFrame | pkg/rego/multireftracer.go:427-448 | An event from another frame is handled after the pop loop. It goes to a new child when the loop stopped at its parent. |
| Tracing.TraceRoot | pkg/rego/multireftracer.go:408-417 | On an empty stack, a root frame seeded with the whole of `input` handles the event. |
| Tracing.TraceOk | pkg/rego/multireftracer.go:406-449 | Every frame left by `TraceEvent` satisfies the frame invariant. |
| Tracing.QueryStack.NewQueryStack | pkg/rego/multireftracer.go:378-380 | A new stack is empty. |
| Tracing.QueryStack.Len | pkg/rego/multireftracer.go:408 | The length is zero exactly when the stack is empty. |
| Tracing.QueryStack.First | pkg/rego/multireftracer.go:362-364 | The first frame is on the stack. It is the last one when the stack holds one frame. |
| Tracing.QueryStack.Last | pkg/rego/multireftracer.go:366-368 | The last frame is on the stack. |
| Tracing.QueryStack.Push | pkg/rego/multireftracer.go:370-372 | Push appends a frame on top, which `Last` then returns, and the length grows by one. |
| Tracing.QueryStack.Pop | pkg/rego/multireftracer.go:374-376 | Pop removes and returns the top frame, the one `Last` returned, and the length shrinks by one. |
| Tracing.QueryTracer.NewQueryTracer | pkg/rego/multireftracer.go:451-455 | A new tracer has a fresh, empty stack and is valid. |
| Tracing.QueryTracer.PopFrames | pkg/rego/multireftracer.go:428-441 | The loop leaves a prefix of the old stack, with the states `Unwind` gives. |
| Tracing.QueryTracer.PopOne | pkg/rego/multireftracer.go:434-439 | One iteration pops the top and merges it into the new top unless it failed. It modifies only the frame below; the popped frame is untouched. |
| Tracing.QueryTracer.PushFrame | pkg/rego/multireftracer.go:443-445 | A fresh frame `NewFrame(e, inputRefs)` is pushed, and the frames stay distinct. |
| Tracing.QueryTracer.Sync | pkg/rego/multireftracer.go:407-447 | The stack's states become `Synced` of the old states. The current frame is on top and is either an old frame or a new one. |
| Tracing.QueryTracer.HandleOnTop | pkg/rego/multireftracer.go:448 | Only the top frame changes, and it handles the event. |
| Tracing.QueryTracer.TraceEvent | pkg/rego/multireftracer.go:406-449 | The stack's states become `Trace` of the old states. The tracer stays valid: frames are distinct and each satisfies the frame invariant. |

## Left out

- Logging through `logrus` has no effect on state, so it is not modelled. Neither is the breakpoint list and its loop, which only logs.
- `Enabled` and `Config` are constant host wiring for OPA's tracer interface and are not modelled.
- `LocalMetadata` is stored by `HandleEvent` but never read, so it is not modelled.
- Event fields other than the operation, the two identifiers, the node and the bindings are not modelled.
- ExpandRef: the `locals` parameter is dropped, because the source does not use it.
- The generic `Stack` behind `QueryStack` is not part of this model. The stack is a sequence of frames, from the root (first) to the current frame (last). `QueryStack.First` is modelled but never used, as in the source.
- Go slice aliasing is not modelled: every reference, record and list of records is a value sequence. This covers the `InputRefs` a child frame shares with its parent's `NextInput`, and records shared through `*InputRef`. It also covers the `append(l, accessor...)` in `ExpandRef` (line 120), where the model and the source can give different results:
  - The model builds each expanded location as a fresh value. In the source, when a stored location `l` has spare capacity, `append` writes into `l`'s backing array. Two different accessors that extend the same stored location can then share one array, and the later expansion overwrites the tail of the location recorded earlier.
  - Example: one query evaluates `x = input.a`, `y = x.b`, `z = y.c`, `y.d == 1` and `z.e == 2`.
    - `input.a` has capacity 2, so `x.b` gives y the location `input.a.b` with capacity 4.
    - `z = y.c` appends `c` in place, so z's stored location shares y's array.
    - `y.d` appends `d` into the same slot, so z's record now reads `input.a.b.d`.
    - `z.e` therefore records `input."a"."b"."d"."e"` in the source and `input."a"."b"."c"."e"` in the model.
- Quote: `strconv.Quote` escaping is not modelled. A string renders as its text between double quotes.
- A number renders as the text it was written with. OPA's numeric formatting is not modelled.
- Terms are compared structurally, for the root document and for the `eq`/`object.get` operators. OPA's numeric equality on numbers is not modelled.
- Query identifiers are unsigned 64-bit in the source and natural numbers here.
- A rule head always has a value term. A head whose `Value` is nil would make the source panic at line 161, and that case is not modelled.
- Some inputs make the source panic. These become preconditions instead of error results:
  - indexing an empty reference (`v[0]`, `ref[0]`);
  - reading operands that are missing in `eq` and `object.get` (captured by `WellFormedEvent`);
  - calling `Last()` on an emptied stack when no frame on the stack is the event's frame or its parent (captured by `Reaches` on `TraceEvent`).
- Tracing.QueryTracer.TraceEvent: the precondition also requires `Valid()`. No frame object may sit on the stack twice, which holds for every stack that `NewQueryTracer` and `TraceEvent` build.
- Four behaviours of the code may be unexpected. The model does what the code does:
  - When rendering, a bound variable whose value is not a string or a number is skipped. One might expect the rendering to fail instead.
  - String segments render quoted (`input."region"`). One might expect them bare (`input.region`).
  - `ExtractInputVars` does not always read every operand.
    - Each `break` at lines 292, 307, 313 and 319 leaves the type switch and skips the operand loop at lines 323-325.
    - So a unification that is not `var = ref` or `ref = var` records no access: `input.a = "x"`, `y = x`, `input.a = input.b`.
    - Neither does an `object.get` whose operands 0, 1 and 3 are not a variable, a string and a variable.
    - One might expect every operand that touches tracked state to be recorded (`SkipsOperands`, `EvalAccesses`).
  - A frame's return provenance never reaches its parent. `ReturnInputRefs` is stored on `Exit` (line 164) and read nowhere. One might expect it to be handed to the parent when the frame is popped. The model keeps the field and reads it nowhere.

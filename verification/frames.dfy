/**
 * One evaluation frame (`Query`): its provenance map, the bindings of the
 * latest event, the rule head, the provenance handed to a child frame, the
 * failed flag, the returned provenance and the access set.
 *
 * `FrameState` is the value of a frame's fields; `Handle` says what one event
 * does to it.  The class `Query` updates its fields in place, and each of its
 * methods is proved to perform the corresponding step on `State()`.
 */
module Frames {
  import opened Ast
  import opened Provenance

  datatype FrameState = FrameState(
    id: nat,
    parentID: nat,
    inputVars: InputVars,
    locals: Locals,
    head: Option<Head>,
    nextInput: Option<seq<InputRef>>,
    failed: bool,
    returnInputRefs: Option<seq<InputRef>>,
    inputAccesses: set<string>)

  /** What every frame the tracer builds satisfies: its records are well
      formed, the empty variable name is never tracked, and the empty string is
      never recorded as an access. */
  predicate FrameInv(s: FrameState)
  {
    && VarsOk(s.inputVars)
    && "" !in s.inputVars
    && (s.nextInput.Some? ==> RecordsOk(s.nextInput.value))
    && (s.returnInputRefs.Some? ==> RecordsOk(s.returnInputRefs.value))
    && "" !in s.inputAccesses
  }

  /** The frame `NewQuery(e, inputRefs)` builds: `input` is seeded with
      `inputRefs` unless it is nil. */
  function NewFrame(e: Event, inputRefs: Option<seq<InputRef>>): (s: FrameState)
    ensures s.id == e.queryID && s.parentID == e.parentID
    ensures s.inputAccesses == {} && !s.failed
    ensures s.inputVars.Keys == if inputRefs.Some? then {InputVar} else {}
    ensures inputRefs.None? || RecordsOk(inputRefs.value) ==> FrameInv(s)
  {
    FrameState(
      e.queryID, e.parentID,
      if inputRefs.Some? then map[InputVar := inputRefs.value] else map[],
      map[], None, None, false, None, {})
  }

  /** The records the root frame starts with: the whole of `input`. */
  function RootRecords(): (r: seq<InputRef>)
    ensures RecordsOk(r)
  {
    [InputRef([], [InputRootRef])]
  }

  /** The root frame reads `input.tail` at exactly one location: `input.tail`. */
  lemma RootSeeding(e: Event, tail: Ref)
    ensures Expand(NewFrame(e, Some(RootRecords())).inputVars, InputVar, tail) == [InputRootRef + tail]
  {
    var recs := RootRecords();
    assert Records(NewFrame(e, Some(recs)).inputVars, InputVar) == recs;
    assert recs[..0] == [];
    assert recs[0].IsParent(tail);
    assert tail[0..] == tail;
    assert RecordExpansion(recs[0], tail) == [InputRootRef + tail];
    assert Expansion(recs, tail) == Expansion(recs[..0], tail) + RecordExpansion(recs[0], tail);
  }

  // ---------------------------------------------------------------------------
  // ExtractInputAccess
  // ---------------------------------------------------------------------------

  /** A term that reads tracked state: a tracked variable, or a reference whose
      head is a tracked variable. */
  predicate Tracked(vars: InputVars, t: Term)
  {
    || (t.Var? && t.name in vars)
    || (t.RefTerm? && |t.path| > 0 && t.path[0].Var? && t.path[0].name in vars)
  }

  /** The locations of `input` a term reads. */
  function TermExpansion(vars: InputVars, t: Term): seq<Ref>
    requires IndexableTerm(t)
  {
    match t
    case RefTerm(p) => if p[0].Var? && p[0].name in vars then Expand(vars, p[0].name, p[1..]) else []
    case Var(v) => if v in vars then Expand(vars, v, []) else []
    case _ => []
  }

  /** An untracked term reads nothing; a tracked one reads one location per
      location of every record of its head that covers the path it reads. */
  lemma TermExpansionLength(vars: InputVars, t: Term)
    requires IndexableTerm(t)
    ensures !Tracked(vars, t) ==> TermExpansion(vars, t) == []
    ensures t.Var? && t.name in vars ==> |TermExpansion(vars, t)| == MatchedLocations(vars[t.name], [])
    ensures t.RefTerm? && Tracked(vars, t) ==>
      |TermExpansion(vars, t)| == MatchedLocations(vars[t.path[0].name], t.path[1..])
  {
    if t.Var? && t.name in vars {
      ExpansionLength(vars[t.name], []);
    } else if t.RefTerm? && Tracked(vars, t) {
      ExpansionLength(vars[t.path[0].name], t.path[1..]);
    }
  }

  /** The accesses a term adds: the non-empty renderings of its expansion. */
  function TermAccesses(vars: InputVars, locals: Locals, t: Term): (r: set<string>)
    requires IndexableTerm(t)
    ensures "" !in r
    ensures !Tracked(vars, t) ==> r == {}
  {
    var rs := NonEmptyRenders(TermExpansion(vars, t), locals);
    assert "" !in rs by {
      NonEmptyRendersMember(TermExpansion(vars, t), locals, "");
    }
    set s | s in rs
  }

  /** A term adds exactly the non-empty renderings of the locations it reads. */
  lemma TermAccessesMember(vars: InputVars, locals: Locals, t: Term, s: string)
    requires IndexableTerm(t)
    ensures s in TermAccesses(vars, locals, t) <==>
      s != "" && exists k :: 0 <= k < |TermExpansion(vars, t)| && Render(TermExpansion(vars, t)[k], locals) == s
  {
    NonEmptyRendersMember(TermExpansion(vars, t), locals, s);
  }

  /** The accesses every operand adds, operand by operand. */
  function OperandAccesses(vars: InputVars, locals: Locals, ts: seq<Term>): (r: set<string>)
    requires forall i :: 0 <= i < |ts| ==> IndexableTerm(ts[i])
    ensures "" !in r
  {
    if ts == [] then {}
    else OperandAccesses(vars, locals, ts[..|ts| - 1]) + TermAccesses(vars, locals, ts[|ts| - 1])
  }

  /** Every operand goes through access extraction, and nothing else is added. */
  lemma {:induction false} OperandAccessesMember(vars: InputVars, locals: Locals, ts: seq<Term>, s: string)
    requires forall i :: 0 <= i < |ts| ==> IndexableTerm(ts[i])
    ensures s in OperandAccesses(vars, locals, ts) <==> exists i :: 0 <= i < |ts| && s in TermAccesses(vars, locals, ts[i])
    decreases |ts|
  {
    if ts != [] {
      var n := |ts|;
      var init := ts[..n - 1];
      var added := TermAccesses(vars, locals, ts[n - 1]);
      assert OperandAccesses(vars, locals, ts) == OperandAccesses(vars, locals, init) + added;
      OperandAccessesMember(vars, locals, init, s);
      if s in OperandAccesses(vars, locals, ts) {
        if s in added {
          assert 0 <= n - 1 < n && s in TermAccesses(vars, locals, ts[n - 1]);
        } else {
          var i :| 0 <= i < |init| && s in TermAccesses(vars, locals, init[i]);
          assert init[i] == ts[i];
        }
      } else {
        forall i | 0 <= i < n
          ensures s !in TermAccesses(vars, locals, ts[i])
        {
          if i < n - 1 {
            assert init[i] == ts[i];
          }
        }
      }
    }
  }

  // ---------------------------------------------------------------------------
  // ExtractInputVars
  // ---------------------------------------------------------------------------

  /** The operands `ExtractInputVars` reads before its operand loop exist:
      both sides of a unification, and operands 0, 1 and 3 of `object.get`
      as far as the branch gets. */
  predicate OperatorArity(x: Expr)
  {
    && (x.Operator() == EqOp ==> AssignmentArity(x.Operands()))
    && (x.Operator() == ObjectGetOp ==> ObjectGetArity(x.Operands()))
  }

  /** The `break`s of `ExtractInputVars`: a unification that is not
      `var = ref` or `ref = var` (or names the empty variable), and an
      `object.get` whose operands 0, 1 and 3 are not a variable, a string and
      a variable.  Breaking leaves the type switch, so the operand loop is
      skipped. */
  predicate SkipsOperands(x: Expr)
    requires OperatorArity(x)
  {
    var ts := x.Operands();
    if x.Operator() == EqOp then
      match CoerceAssignmentOperands(ts)
      case None => true
      case Some((v, _)) => v == ""
    else if x.Operator() == ObjectGetOp then
      !ts[0].Var? || !ts[1].Str? || !ts[3].Var?
    else false
  }

  /** What an evaluated expression must satisfy for the tracer not to index
      past its operands: the operands read before the loop exist, and when
      the loop runs every reference operand has a head. */
  predicate ExprOk(x: Expr)
  {
    OperatorArity(x) && (!SkipsOperands(x) ==> OperandsIndexable(x))
  }

  /** The requirement on the events the engine delivers, for the expression
      events the tracer takes apart. */
  predicate WellFormedEvent(e: Event)
  {
    e.node.ExprNode? ==>
      && (e.op == Eval ==> ExprOk(e.node.expr))
      && (e.op == Index ==> OperandsIndexable(e.node.expr))
  }

  /** The provenance map after the assignment part of `ExtractInputVars`:
      `v = head.tail` or `head.tail = v` with a tracked `head` gives `v` a
      record for its whole value. */
  function AssignedVars(vars: InputVars, x: Expr): (r: InputVars)
    requires ExprOk(x)
    ensures x.Operator() != EqOp ==> r == vars
    ensures SkipsOperands(x) ==> r == vars
    ensures VarsGrow(vars, r)
    ensures VarsOk(vars) ==> VarsOk(r)
    ensures "" !in vars ==> "" !in r
  {
    if x.Operator() != EqOp then vars
    else match CoerceAssignmentOperands(x.Operands())
      case None => vars
      case Some((v, ref)) =>
        assert RefTerm(ref) in x.Operands()[..2];
        if v == "" then vars
        else if ref[0].Var? && ref[0].name in vars then AddRecord(vars, v, [], ref[0].name, ref[1..])
        else vars
  }

  /** An assignment from a tracked reference records, for the assigned
      variable, one new record covering its whole value. */
  lemma AssignmentAddsRecord(vars: InputVars, x: Expr, v: VarName, ref: Ref)
    requires ExprOk(x) && x.Operator() == EqOp
    requires CoerceAssignmentOperands(x.Operands()) == Some((v, ref))
    requires v != "" && |ref| > 0 && ref[0].Var? && ref[0].name in vars
    requires Expand(vars, ref[0].name, ref[1..]) != []
    ensures AssignedVars(vars, x) == vars[v := Records(vars, v) + [InputRef([], Expand(vars, ref[0].name, ref[1..]))]]
  {
  }

  /** What `ExtractInputVars` does to a frame. */
  function ExtractVarsStep(s: FrameState, e: Event): FrameState
    requires e.node.ExprNode? ==> ExprOk(e.node.expr)
  {
    match e.node
    case ExprNode(x) =>
      var vars := AssignedVars(s.inputVars, x);
      if SkipsOperands(x) then s.(inputVars := vars)
      else s.(inputVars := vars, inputAccesses := s.inputAccesses + OperandAccesses(vars, s.locals, x.Operands()))
    case _ => s
  }

  /** `ExtractInputVars` changes only the map and the accesses, both only
      grow, and an expression that breaks out early changes nothing. */
  lemma ExtractVarsStepEffect(s: FrameState, e: Event)
    requires e.node.ExprNode? ==> ExprOk(e.node.expr)
    ensures var r := ExtractVarsStep(s, e);
      && r == s.(inputVars := r.inputVars, inputAccesses := r.inputAccesses)
      && VarsGrow(s.inputVars, r.inputVars) && s.inputAccesses <= r.inputAccesses
      && (!e.node.ExprNode? || SkipsOperands(e.node.expr) ==> r == s)
      && ("" !in s.inputAccesses ==> "" !in r.inputAccesses)
  {
  }

  /** What `ExtractInputAccessFromEvent` does to a frame. */
  function AccessFromEventStep(s: FrameState, e: Event): FrameState
    requires e.node.ExprNode? ==> OperandsIndexable(e.node.expr)
  {
    match e.node
    case ExprNode(x) => s.(inputAccesses := s.inputAccesses + OperandAccesses(s.inputVars, s.locals, x.Operands()))
    case _ => s
  }

  /** `ExtractInputAccessFromEvent` changes only the accesses, which only grow
      and never gain `""`; other nodes change nothing. */
  lemma AccessFromEventStepEffect(s: FrameState, e: Event)
    requires e.node.ExprNode? ==> OperandsIndexable(e.node.expr)
    ensures var r := AccessFromEventStep(s, e);
      && r == s.(inputAccesses := r.inputAccesses)
      && s.inputAccesses <= r.inputAccesses
      && (!e.node.ExprNode? ==> r == s)
      && ("" !in s.inputAccesses ==> "" !in r.inputAccesses)
  {
  }

  // ---------------------------------------------------------------------------
  // ExtractNextInput
  // ---------------------------------------------------------------------------

  /** `p + q` when the substitution of `q` did not give up. */
  function Prepend<T>(p: seq<T>, o: Option<seq<T>>): Option<seq<T>>
  {
    match o
    case None => None
    case Some(q) => Some(p + q)
  }

  lemma PrependNothing<T>(o: Option<seq<T>>)
    ensures Prepend([], o) == o
  {
    if o.Some? {
      assert [] + o.value == o.value;
    }
  }

  lemma PrependPrepend<T>(p: seq<T>, q: seq<T>, o: Option<seq<T>>)
    ensures Prepend(p, Prepend(q, o)) == Prepend(p + q, o)
  {
    if o.Some? {
      assert p + (q + o.value) == (p + q) + o.value;
    }
  }

  lemma PrependAll<T>(p: seq<T>)
    ensures Prepend(p, Some([])) == Some(p)
  {
    assert p + [] == p;
  }

  /** A segment of a location after substitution for a child frame; None when
      the segment is neither a variable nor a string nor a number. */
  function InputSegment(t: Term, locals: Locals): Option<Term>
  {
    match t
    case Var(v) => if v == InputVar then Some(t) else if v in locals then Some(locals[v]) else Some(t)
    case Str(_) => Some(t)
    case Num(_) => Some(t)
    case _ => None
  }

  /** A segment the substitution accepts. */
  predicate Substitutable(t: Term)
  {
    t.Var? || t.Str? || t.Num?
  }

  /** A location with bound variables replaced by their values; None as soon as
      a segment is not substitutable. */
  function SubstitutedLocation(ref: Ref, locals: Locals): (r: Option<Ref>)
    ensures r.Some? ==> |r.value| == |ref|
    ensures r.None? <==> exists i :: 0 <= i < |ref| && !Substitutable(ref[i])
  {
    if ref == [] then Some([])
    else match InputSegment(ref[0], locals)
      case None => None
      case Some(u) =>
        var rest := SubstitutedLocation(ref[1..], locals);
        assert forall i :: 1 <= i < |ref| ==> ref[i] == ref[1..][i - 1];
        assert forall i :: 0 <= i < |ref| - 1 ==> ref[1..][i] == ref[i + 1];
        Prepend([u], rest)
  }

  /** Where the substitution succeeds it is what `RenderRef` computes. */
  lemma {:induction false} SubstitutedLocationIsRenderRef(ref: Ref, locals: Locals)
    requires SubstitutedLocation(ref, locals).Some?
    ensures SubstitutedLocation(ref, locals).value == Substituted(ref, locals)
    decreases |ref|
  {
    if ref != [] {
      var n := |ref|;
      var init := ref[..n - 1];
      var last := ref[n - 1];
      assert !(exists i :: 0 <= i < n && !Substitutable(ref[i]));
      assert forall i :: 0 <= i < n - 1 ==> init[i] == ref[i];
      assert SubstitutedLocation(init, locals).Some?;
      SubstitutedLocationIsRenderRef(init, locals);
      SubstitutedLocationSnoc(init, last, locals);
      assert init + [last] == ref;
    }
  }

  /** Substituting a location extended by one segment. */
  lemma {:induction false} SubstitutedLocationSnoc(ref: Ref, t: Term, locals: Locals)
    requires SubstitutedLocation(ref + [t], locals).Some?
    ensures SubstitutedLocation(ref, locals).Some? && InputSegment(t, locals).Some?
    ensures SubstitutedLocation(ref + [t], locals).value ==
      SubstitutedLocation(ref, locals).value + [InputSegment(t, locals).value]
    decreases |ref|
  {
    if ref == [] {
      assert [t][1..] == [];
    } else {
      assert (ref + [t])[0] == ref[0];
      assert (ref + [t])[1..] == ref[1..] + [t];
      SubstitutedLocationSnoc(ref[1..], t, locals);
    }
  }

  /** Every location of a record after substitution. */
  function SubstitutedLocations(locs: seq<Ref>, locals: Locals): (r: Option<seq<Ref>>)
    ensures r.Some? ==> |r.value| == |locs| && forall j :: 0 <= j < |locs| ==> |r.value[j]| == |locs[j]|
  {
    if locs == [] then Some([])
    else match SubstitutedLocation(locs[0], locals)
      case None => None
      case Some(l) => Prepend([l], SubstitutedLocations(locs[1..], locals))
  }

  /** Every record after substitution; None when any location gives up. */
  function SubstitutedRecords(recs: seq<InputRef>, locals: Locals): Option<seq<InputRef>>
  {
    if recs == [] then Some([])
    else match SubstitutedLocations(recs[0].locationsInInput, locals)
      case None => None
      case Some(locs) => Prepend([InputRef(recs[0].locationInVar, locs)], SubstitutedRecords(recs[1..], locals))
  }

  /** Substitution keeps every record's place in `v` and its number of
      locations, so well-formed records stay well formed. */
  lemma {:induction false} SubstitutedRecordsShape(recs: seq<InputRef>, locals: Locals)
    ensures var r := SubstitutedRecords(recs, locals);
      r.Some? ==> |r.value| == |recs| && forall i :: 0 <= i < |recs| ==>
        && r.value[i].locationInVar == recs[i].locationInVar
        && |r.value[i].locationsInInput| == |recs[i].locationsInInput|
    ensures RecordsOk(recs) && SubstitutedRecords(recs, locals).Some? ==> RecordsOk(SubstitutedRecords(recs, locals).value)
    decreases |recs|
  {
    var r := SubstitutedRecords(recs, locals);
    if recs != [] && r.Some? {
      var locs := SubstitutedLocations(recs[0].locationsInInput, locals);
      var rest := SubstitutedRecords(recs[1..], locals);
      assert locs.Some? && rest.Some?;
      var head := InputRef(recs[0].locationInVar, locs.value);
      assert r.value == [head] + rest.value;
      SubstitutedRecordsShape(recs[1..], locals);
      forall i | 0 <= i < |recs|
        ensures r.value[i].locationInVar == recs[i].locationInVar
        ensures |r.value[i].locationsInInput| == |recs[i].locationsInInput|
      {
        if i > 0 {
          assert r.value[i] == rest.value[i - 1];
          assert recs[i] == recs[1..][i - 1];
        }
      }
    }
  }

  /** Every segment of the location is one the substitution accepts. */
  predicate LocationSubstitutable(loc: Ref)
  {
    forall k :: 0 <= k < |loc| ==> Substitutable(loc[k])
  }

  /** Every location of every record is substitutable. */
  predicate RecordsSubstitutable(recs: seq<InputRef>)
  {
    forall i, j :: 0 <= i < |recs| && 0 <= j < |recs[i].locationsInInput| ==>
      LocationSubstitutable(recs[i].locationsInInput[j])
  }

  /** The locations of a record are substituted one by one: the result exists
      exactly when every location is substitutable, and then each location is
      replaced by what `RenderRef` computes for it. */
  lemma {:induction false} SubstitutedLocationsAll(locs: seq<Ref>, locals: Locals)
    ensures SubstitutedLocations(locs, locals).Some? <==>
      forall j :: 0 <= j < |locs| ==> LocationSubstitutable(locs[j])
    ensures SubstitutedLocations(locs, locals).Some? ==>
      forall j :: 0 <= j < |locs| ==> SubstitutedLocations(locs, locals).value[j] == Substituted(locs[j], locals)
    decreases |locs|
  {
    if locs != [] {
      var rest := locs[1..];
      SubstitutedLocationsAll(rest, locals);
      assert forall j :: 1 <= j < |locs| ==> locs[j] == rest[j - 1];
      var r := SubstitutedLocations(locs, locals);
      if SubstitutedLocation(locs[0], locals).Some? {
        SubstitutedLocationIsRenderRef(locs[0], locals);
        if r.Some? {
          var tail := SubstitutedLocations(rest, locals);
          assert tail.Some? && r.value == [SubstitutedLocation(locs[0], locals).value] + tail.value;
          forall j | 0 <= j < |locs|
            ensures r.value[j] == Substituted(locs[j], locals)
          {
            if j > 0 {
              assert r.value[j] == tail.value[j - 1];
            }
          }
        }
      }
    }
  }

  /** The records handed to a child frame: the substitution gives up exactly
      when some segment of some location of some record is not a variable,
      a string or a number; otherwise every record keeps its place in the
      variable and each of its locations is replaced by what `RenderRef`
      computes for it (bound variables become their values, `input` and
      unbound variables stay). */
  lemma {:induction false} SubstitutedRecordsAll(recs: seq<InputRef>, locals: Locals)
    ensures SubstitutedRecords(recs, locals).Some? <==> RecordsSubstitutable(recs)
    ensures var r := SubstitutedRecords(recs, locals);
      r.Some? ==> |r.value| == |recs| && forall i :: 0 <= i < |recs| ==>
        && r.value[i].locationInVar == recs[i].locationInVar
        && |r.value[i].locationsInInput| == |recs[i].locationsInInput|
        && forall j :: 0 <= j < |recs[i].locationsInInput| ==>
             r.value[i].locationsInInput[j] == Substituted(recs[i].locationsInInput[j], locals)
    decreases |recs|
  {
    if recs != [] {
      var rest := recs[1..];
      SubstitutedRecordsAll(rest, locals);
      SubstitutedLocationsAll(recs[0].locationsInInput, locals);
      assert forall i :: 1 <= i < |recs| ==> recs[i] == rest[i - 1];
      var r := SubstitutedRecords(recs, locals);
      var locs := SubstitutedLocations(recs[0].locationsInInput, locals);
      assert RecordsSubstitutable(recs) <==>
        (forall j :: 0 <= j < |recs[0].locationsInInput| ==> LocationSubstitutable(recs[0].locationsInInput[j]))
        && RecordsSubstitutable(rest)
      by {
        if RecordsSubstitutable(recs) {
          forall i, j | 0 <= i < |rest| && 0 <= j < |rest[i].locationsInInput|
            ensures LocationSubstitutable(rest[i].locationsInInput[j])
          {
            assert rest[i] == recs[i + 1];
          }
        }
        if (forall j :: 0 <= j < |recs[0].locationsInInput| ==> LocationSubstitutable(recs[0].locationsInInput[j]))
          && RecordsSubstitutable(rest)
        {
          forall i, j | 0 <= i < |recs| && 0 <= j < |recs[i].locationsInInput|
            ensures LocationSubstitutable(recs[i].locationsInInput[j])
          {
            if i > 0 {
              assert recs[i] == rest[i - 1];
            }
          }
        }
      }
      if r.Some? {
        var tail := SubstitutedRecords(rest, locals);
        assert locs.Some? && tail.Some?;
        assert r.value == [InputRef(recs[0].locationInVar, locs.value)] + tail.value;
        forall i | 0 <= i < |recs|
          ensures r.value[i].locationInVar == recs[i].locationInVar
          ensures |r.value[i].locationsInInput| == |recs[i].locationsInInput|
          ensures forall j :: 0 <= j < |recs[i].locationsInInput| ==>
            r.value[i].locationsInInput[j] == Substituted(recs[i].locationsInInput[j], locals)
        {
          if i > 0 {
            assert r.value[i] == tail.value[i - 1];
          }
        }
      }
    }
  }

  /** A `with` clause that replaces the whole of `input`. */
  predicate TargetsInput(w: With)
  {
    w.target.RefTerm? && w.target.path == InputRootRef
  }

  /** What a `with input as v` clause hands to a child frame: `v`'s records
      with the current bindings substituted, or nil when `v` is not a tracked
      variable or a location cannot be substituted. */
  function InputOverride(vars: InputVars, locals: Locals, w: With): (r: Option<seq<InputRef>>)
    ensures w.value.Var? && w.value.name !in vars ==> r.None?
    ensures !w.value.Var? && "" !in vars ==> r.None?
    ensures VarsOk(vars) && r.Some? ==> RecordsOk(r.value)
  {
    var v := if w.value.Var? then w.value.name else "";
    if v in vars then
      SubstitutedRecordsShape(vars[v], locals);
      SubstitutedRecords(vars[v], locals)
    else None
  }

  /** `with input as v` for a tracked `v` hands the child `v`'s records with
      the current bindings substituted, or nil when some location of them
      holds a segment that is not a variable, a string or a number. */
  lemma InputOverrideTracked(vars: InputVars, locals: Locals, w: With)
    requires w.value.Var? && w.value.name in vars
    ensures InputOverride(vars, locals, w).None? <==> !RecordsSubstitutable(vars[w.value.name])
    ensures var recs, r := vars[w.value.name], InputOverride(vars, locals, w);
      r.Some? ==> |r.value| == |recs| && forall i :: 0 <= i < |recs| ==>
        && r.value[i].locationInVar == recs[i].locationInVar
        && |r.value[i].locationsInInput| == |recs[i].locationsInInput|
        && forall j :: 0 <= j < |recs[i].locationsInInput| ==>
             r.value[i].locationsInInput[j] == Substituted(recs[i].locationsInInput[j], locals)
  {
    SubstitutedRecordsAll(vars[w.value.name], locals);
  }

  /** The `with` loop of `ExtractNextInput`: the first clause that targets
      `input` decides; without one `current` is kept. */
  function WithNextInput(vars: InputVars, locals: Locals, ws: seq<With>, current: Option<seq<InputRef>>): (r: Option<seq<InputRef>>)
    ensures VarsOk(vars) && (current.Some? ==> RecordsOk(current.value)) && r.Some? ==> RecordsOk(r.value)
    decreases |ws|
  {
    if ws == [] then current
    else if !TargetsInput(ws[0]) then WithNextInput(vars, locals, ws[1..], current)
    else InputOverride(vars, locals, ws[0])
  }

  /** The first clause that targets `input` decides the provenance handed to a
      child frame; when no clause targets `input`, it is left as it was. */
  lemma {:induction false} WithNextInputFirst(vars: InputVars, locals: Locals, ws: seq<With>, current: Option<seq<InputRef>>)
    ensures (forall i :: 0 <= i < |ws| ==> !TargetsInput(ws[i])) ==> WithNextInput(vars, locals, ws, current) == current
    ensures forall i :: 0 <= i < |ws| && TargetsInput(ws[i]) && (forall j :: 0 <= j < i ==> !TargetsInput(ws[j])) ==>
      WithNextInput(vars, locals, ws, current) == InputOverride(vars, locals, ws[i])
    decreases |ws|
  {
    if ws != [] {
      var rest := ws[1..];
      WithNextInputFirst(vars, locals, rest, current);
      assert forall i :: 0 <= i < |rest| ==> rest[i] == ws[i + 1];
      if !TargetsInput(ws[0]) {
        assert WithNextInput(vars, locals, ws, current) == WithNextInput(vars, locals, rest, current);
        forall i | 0 <= i < |ws| && TargetsInput(ws[i]) && (forall j :: 0 <= j < i ==> !TargetsInput(ws[j]))
          ensures WithNextInput(vars, locals, ws, current) == InputOverride(vars, locals, ws[i])
        {
          assert i > 0 && ws[i] == rest[i - 1];
        }
      }
    }
  }

  /** `NextInput` after `ExtractNextInput` on an expression. */
  function NextInputAfter(vars: InputVars, locals: Locals, x: Expr, current: Option<seq<InputRef>>): (r: Option<seq<InputRef>>)
    ensures |x.withClauses| == 0 ==> r == Lookup(vars, InputVar)
    ensures VarsOk(vars) && (current.Some? ==> RecordsOk(current.value)) ==> (r.Some? ==> RecordsOk(r.value))
  {
    if |x.withClauses| < 1 then Lookup(vars, InputVar)
    else WithNextInput(vars, locals, x.withClauses, current)
  }

  /** What `ExtractNextInput` does to a frame. */
  function NextInputStep(s: FrameState, e: Event): FrameState
  {
    match e.node
    case ExprNode(x) => s.(nextInput := NextInputAfter(s.inputVars, s.locals, x, s.nextInput))
    case _ => s
  }

  /** `ExtractNextInput` changes only `NextInput`: an expression without `with`
      clauses hands on the records of `input`, and the frame invariant is
      kept. */
  lemma NextInputStepEffect(s: FrameState, e: Event)
    ensures var r := NextInputStep(s, e);
      && r == s.(nextInput := r.nextInput)
      && (!e.node.ExprNode? ==> r == s)
      && (e.node.ExprNode? && |e.node.expr.withClauses| == 0 ==> r.nextInput == Lookup(s.inputVars, InputVar))
      && (FrameInv(s) ==> FrameInv(r))
  {
  }

  // ---------------------------------------------------------------------------
  // HandleEvent
  // ---------------------------------------------------------------------------

  /** What `HandleEvent` does to a frame. */
  function Handle(s: FrameState, e: Event): (r: FrameState)
    requires WellFormedEvent(e)
    ensures r.id == s.id && r.parentID == s.parentID
    ensures r.locals == e.locals
    ensures r.failed == (s.failed || e.op == Fail)
    ensures s.inputAccesses <= r.inputAccesses
    ensures VarsGrow(s.inputVars, r.inputVars)
    ensures e.op != Eval ==> r.inputVars == s.inputVars
    ensures e.op != Eval && e.op != Index ==> r.inputAccesses == s.inputAccesses && r.nextInput == s.nextInput
    ensures e.op == Enter && e.node.RuleNode? ==> r.head == Some(e.node.head)
    ensures e.op == Exit && s.head.Some? && s.head.value.value.Var? ==>
      r.returnInputRefs == Lookup(s.inputVars, s.head.value.value.name)
    ensures FrameInv(s) ==> FrameInv(r)
  {
    var s1 := s.(locals := e.locals);
    match e.op
    case Enter =>
      if e.node.RuleNode? then s1.(head := Some(e.node.head)) else s1
    case Exit =>
      if s1.head.Some? && s1.head.value.value.Var? then
        s1.(returnInputRefs := Lookup(s1.inputVars, s1.head.value.value.name))
      else s1
    case Fail =>
      s1.(failed := true)
    case Eval =>
      NextInputStep(ExtractVarsStep(s1, e), e)
    case Index =>
      NextInputStep(AccessFromEventStep(s1, e), e)
    case _ =>
      s1
  }

  /** An evaluated expression: the assignment is recorded first and every
      operand is then read with the updated map, unless the expression breaks
      out early, in which case neither the map nor the accesses change. */
  lemma EvalAccesses(s: FrameState, e: Event)
    requires WellFormedEvent(e) && e.op == Eval && e.node.ExprNode?
    ensures var x, r := e.node.expr, Handle(s, e);
      if SkipsOperands(x) then r.inputVars == s.inputVars && r.inputAccesses == s.inputAccesses
      else
        && r.inputVars == AssignedVars(s.inputVars, x)
        && r.inputAccesses == s.inputAccesses + OperandAccesses(r.inputVars, e.locals, x.Operands())
  {
  }

  /** `input.a = "x"` is neither `var = ref` nor `ref = var`: it breaks out
      before the operand loop, so the frame records no access to `input.a`. */
  lemma UnificationWithValueRecordsNothing(s: FrameState, e: Event)
    requires e.op == Eval
    requires e.node == ExprNode(Expr(Call(EqOp, [RefTerm([InputRootDocument, Str("a")]), Str("x")]), []))
    ensures Handle(s, e).inputAccesses == s.inputAccesses
  {
    assert WellFormedEvent(e);
    EvalAccesses(s, e);
  }

  // ---------------------------------------------------------------------------
  // The class
  // ---------------------------------------------------------------------------

  /** `SubstitutedLocation`, computed segment by segment. */
  method SubstituteLocation(ref: Ref, locals: Locals) returns (rendered: Option<Ref>)
    ensures rendered == SubstitutedLocation(ref, locals)
  {
    var out: Ref := [];
    var i := 0;
    assert ref[0..] == ref;
    PrependNothing(SubstitutedLocation(ref, locals));
    while i < |ref|
      invariant 0 <= i <= |ref|
      invariant SubstitutedLocation(ref, locals) == Prepend(out, SubstitutedLocation(ref[i..], locals))
    {
      var t := ref[i];
      assert ref[i..][0] == t && ref[i..][1..] == ref[i + 1..];
      ghost var rest := SubstitutedLocation(ref[i + 1..], locals);
      if InputSegment(t, locals).Some? {
        PrependPrepend(out, [InputSegment(t, locals).value], rest);
      }
      match t {
        case Var(v) =>
          if v == InputVar {
            out := out + [t];
          } else if v in locals {
            out := out + [locals[v]];
          } else {
            out := out + [t];
          }
        case Str(_) =>
          out := out + [t];
        case Num(_) =>
          out := out + [t];
        case _ =>
          return None;
      }
      i := i + 1;
    }
    PrependAll(out);
    rendered := Some(out);
  }

  /** `SubstitutedLocations`, computed location by location. */
  method SubstituteLocations(locs: seq<Ref>, locals: Locals) returns (locsInInput: Option<seq<Ref>>)
    ensures locsInInput == SubstitutedLocations(locs, locals)
  {
    var out: seq<Ref> := [];
    var j := 0;
    assert locs[0..] == locs;
    PrependNothing(SubstitutedLocations(locs, locals));
    while j < |locs|
      invariant 0 <= j <= |locs|
      invariant SubstitutedLocations(locs, locals) == Prepend(out, SubstitutedLocations(locs[j..], locals))
    {
      assert locs[j..][0] == locs[j] && locs[j..][1..] == locs[j + 1..];
      var rendered := SubstituteLocation(locs[j], locals);
      if rendered.None? {
        return None;
      }
      PrependPrepend(out, [rendered.value], SubstitutedLocations(locs[j + 1..], locals));
      out := out + [rendered.value];
      j := j + 1;
    }
    assert locs[j..] == [];
    PrependAll(out);
    locsInInput := Some(out);
  }

  /** `SubstitutedRecords`, computed record by record. */
  method SubstituteRecords(recs: seq<InputRef>, locals: Locals) returns (expanded: Option<seq<InputRef>>)
    ensures expanded == SubstitutedRecords(recs, locals)
  {
    var out: seq<InputRef> := [];
    var i := 0;
    assert recs[0..] == recs;
    PrependNothing(SubstitutedRecords(recs, locals));
    while i < |recs|
      invariant 0 <= i <= |recs|
      invariant SubstitutedRecords(recs, locals) == Prepend(out, SubstitutedRecords(recs[i..], locals))
    {
      var r := recs[i];
      assert recs[i..][0] == r && recs[i..][1..] == recs[i + 1..];
      var locsInInput := SubstituteLocations(r.locationsInInput, locals);
      if locsInInput.None? {
        return None;
      }
      var rec := InputRef(r.locationInVar, locsInInput.value);
      PrependPrepend(out, [rec], SubstitutedRecords(recs[i + 1..], locals));
      out := out + [rec];
      i := i + 1;
    }
    assert recs[i..] == [];
    PrependAll(out);
    expanded := Some(out);
  }

  /** `Query`: one frame of the tracer. */
  class Query {
    var id: nat
    var parentID: nat
    var inputVars: InputVars
    var locals: Locals
    var head: Option<Head>
    var nextInput: Option<seq<InputRef>>
    var failed: bool
    var returnInputRefs: Option<seq<InputRef>>
    var inputAccesses: set<string>

    /** The value of the fields. */
    function State(): FrameState
      reads this
    {
      FrameState(id, parentID, inputVars, locals, head, nextInput, failed, returnInputRefs, inputAccesses)
    }

    /** `NewQuery` */
    constructor NewQuery(e: Event, inputRefs: Option<seq<InputRef>>)
      ensures State() == NewFrame(e, inputRefs)
    {
      id := e.queryID;
      parentID := e.parentID;
      inputVars := if inputRefs.Some? then map[InputVar := inputRefs.value] else map[];
      locals := map[];
      head := None;
      nextInput := None;
      failed := false;
      returnInputRefs := None;
      inputAccesses := {};
    }

    /** `InputVars.AddInputRef` on this frame's map. */
    method AddInputRef(v: VarName, pathInVar: Ref, source: VarName, tail: Ref)
      modifies this
      ensures State() == old(State()).(inputVars := AddRecord(old(inputVars), v, pathInVar, source, tail))
    {
      var expanded := ExpandRef(inputVars, source, tail);
      if |expanded| < 1 {
        return;
      }
      var inputRef := InputRef(pathInVar, expanded);
      assert Records(inputVars, v) + [inputRef] == if v in inputVars then inputVars[v] + [inputRef] else [inputRef];
      if v !in inputVars {
        inputVars := inputVars[v := [inputRef]];
      } else {
        inputVars := inputVars[v := inputVars[v] + [inputRef]];
      }
    }

    /** Adds the non-empty renderings of `expanded` to the access set. */
    method AddRenderings(expanded: seq<Ref>)
      modifies this
      ensures State() == old(State()).(inputAccesses := old(inputAccesses) + set s | s in NonEmptyRenders(expanded, locals))
    {
      var i := 0;
      while i < |expanded|
        invariant 0 <= i <= |expanded|
        invariant State() == old(State()).(inputAccesses := old(inputAccesses) + set s | s in NonEmptyRenders(expanded[..i], locals))
      {
        var r := RenderRefToString(expanded[i], locals);
        assert expanded[..i + 1] == expanded[..i] + [expanded[i]];
        NonEmptyRendersSnoc(expanded[..i], expanded[i], locals);
        if r != "" {
          inputAccesses := inputAccesses + {r};
        }
        i := i + 1;
      }
      assert expanded[..i] == expanded;
    }

    /** `Query.ExtractInputAccess` */
    method ExtractInputAccess(t: Term)
      requires IndexableTerm(t)
      modifies this
      ensures State() == old(State()).(inputAccesses := old(inputAccesses) + TermAccesses(inputVars, locals, t))
    {
      match t
      case RefTerm(v) =>
        var h := v[0];
        var tail := v[1..];
        if h.Var? {
          if h.name !in inputVars {
            return;
          }
          var expanded := ExpandRef(inputVars, h.name, tail);
          AddRenderings(expanded);
        }
      case Var(v) =>
        if v !in inputVars {
          return;
        }
        var expanded := ExpandRef(inputVars, v, []);
        AddRenderings(expanded);
      case _ =>
    }

    /** Runs `ExtractInputAccess` on every operand. */
    method ExtractOperandAccesses(operands: seq<Term>)
      requires forall i :: 0 <= i < |operands| ==> IndexableTerm(operands[i])
      modifies this
      ensures State() == old(State()).(inputAccesses := old(inputAccesses) + OperandAccesses(inputVars, locals, operands))
    {
      var i := 0;
      while i < |operands|
        invariant 0 <= i <= |operands|
        invariant State() == old(State()).(inputAccesses := inputAccesses)
        invariant inputAccesses == old(inputAccesses) + OperandAccesses(inputVars, locals, operands[..i])
      {
        assert operands[..i + 1][..i] == operands[..i];
        assert OperandAccesses(inputVars, locals, operands[..i + 1]) ==
          OperandAccesses(inputVars, locals, operands[..i]) + TermAccesses(inputVars, locals, operands[i]);
        ExtractInputAccess(operands[i]);
        i := i + 1;
      }
      assert operands[..i] == operands;
    }

    /** `Query.ExtractInputVars` */
    method ExtractInputVars(e: Event)
      requires e.node.ExprNode? ==> ExprOk(e.node.expr)
      modifies this
      ensures State() == ExtractVarsStep(old(State()), e)
    {
      match e.node
      case ExprNode(n) =>
        var skipOperands := ExtractAssignment(n);
        if !skipOperands {
          ExtractOperandAccesses(n.Operands());
        }
      case _ =>
    }

    /** The assignment part of `ExtractInputVars`; `skipOperands` tells
        whether it broke out of the type switch. */
    method ExtractAssignment(n: Expr) returns (skipOperands: bool)
      requires ExprOk(n)
      modifies this
      ensures skipOperands == SkipsOperands(n)
      ensures State() == old(State()).(inputVars := AssignedVars(old(inputVars), n))
    {
      var operator := n.Operator();
      var operands := n.Operands();
      if operator == EqOp {
        var coerced := CoerceAssignmentOperands(operands);
        if coerced.None? || coerced.value.0 == "" {
          return true;
        }
        var v := coerced.value.0;
        var ref := coerced.value.1;
        assert RefTerm(ref) in operands[..2];
        if ref[0].Var? && ref[0].name in inputVars {
          AddInputRef(v, [], ref[0].name, ref[1..]);
        }
      } else if operator == ObjectGetOp {
        // `object.get(obj, "key", default, out)` is recognised but adds no record.
        if !operands[0].Var? || !operands[1].Str? || !operands[3].Var? {
          return true;
        }
      }
      return false;
    }

    /** `Query.ExtractInputAccessFromEvent` */
    method ExtractInputAccessFromEvent(e: Event)
      requires e.node.ExprNode? ==> OperandsIndexable(e.node.expr)
      modifies this
      ensures State() == AccessFromEventStep(old(State()), e)
    {
      match e.node
      case ExprNode(n) =>
        ExtractOperandAccesses(n.Operands());
      case _ =>
    }

    /** `Query.ExtractNextInput` */
    method ExtractNextInput(e: Event)
      modifies this
      ensures State() == NextInputStep(old(State()), e)
    {
      match e.node
      case ExprNode(n) =>
        if |n.withClauses| < 1 {
          nextInput := Lookup(inputVars, InputVar);
          return;
        }
        var k := 0;
        while k < |n.withClauses|
          invariant 0 <= k <= |n.withClauses|
          invariant State() == old(State())
          invariant WithNextInput(inputVars, locals, n.withClauses, nextInput) ==
            WithNextInput(inputVars, locals, n.withClauses[k..], nextInput)
        {
          var w := n.withClauses[k];
          assert n.withClauses[k..][0] == w && n.withClauses[k..][1..] == n.withClauses[k + 1..];
          if !w.target.RefTerm? || w.target.path != InputRootRef {
            k := k + 1;
          } else {
            var v: VarName := "";
            if w.value.Var? {
              v := w.value.name;
            } else {
              nextInput := None;
            }
            if v in inputVars {
              nextInput := SubstituteRecords(inputVars[v], locals);
            } else {
              nextInput := None;
            }
            return;
          }
        }
      case _ =>
    }

    /** `Query.MergeInputAccesses` */
    method MergeInputAccesses(o: Query)
      modifies this
      ensures State() == old(State()).(inputAccesses := old(inputAccesses) + old(o.inputAccesses))
    {
      var remaining := o.inputAccesses;
      while remaining != {}
        invariant remaining <= old(o.inputAccesses)
        invariant State() == old(State()).(inputAccesses := old(inputAccesses) + (old(o.inputAccesses) - remaining))
        decreases remaining
      {
        var p :| p in remaining;
        inputAccesses := inputAccesses + {p};
        remaining := remaining - {p};
      }
    }

    /** `Query.HandleEvent` */
    method HandleEvent(e: Event)
      requires WellFormedEvent(e)
      modifies this
      ensures State() == Handle(old(State()), e)
    {
      locals := e.locals;
      match e.op
      case Enter =>
        if e.node.RuleNode? {
          head := Some(e.node.head);
        }
      case Exit =>
        if head.Some? && head.value.value.Var? {
          returnInputRefs := Lookup(inputVars, head.value.value.name);
        }
      case Fail =>
        failed := true;
      case Eval =>
        ExtractInputVars(e);
        ExtractNextInput(e);
      case Index =>
        ExtractInputAccessFromEvent(e);
        ExtractNextInput(e);
      case _ =>
    }
  }
}

/**
 * The reference algebra of the tracer: provenance records, the expansion of
 * `head.tail` into locations of `input`, and the rendering of references to
 * dotted strings or to references with local bindings substituted.
 *
 * Each loop of the source is a method proved equal to a specification
 * function; the properties are lemmas about those functions.
 */
module Provenance {
  import opened Ast

  /** `InputRef`: the value of a variable at `locationInVar` came from each of
      `locationsInInput`. */
  datatype InputRef = InputRef(locationInVar: Ref, locationsInInput: seq<Ref>)
  {
    /** `InputRef.IsParent`: this record's location is a prefix of `r`. */
    predicate IsParent(r: Ref)
    {
      |locationInVar| <= |r| && r[..|locationInVar|] == locationInVar
    }
  }

  /** A record is a parent of `r` exactly when `r` is its location followed by
      the rest of `r`. */
  lemma IsParentSplits(rec: InputRef, r: Ref)
    ensures rec.IsParent(r) <==> |rec.locationInVar| <= |r| && r == rec.locationInVar + r[|rec.locationInVar|..]
  {
    if |rec.locationInVar| <= |r| {
      assert r == r[..|rec.locationInVar|] + r[|rec.locationInVar|..];
    }
  }

  /** `InputVars`: the provenance map of one frame. */
  type InputVars = map<VarName, seq<InputRef>>

  /** Reading `i[v]` where nil and non-nil matter. */
  function Lookup(vars: InputVars, v: VarName): Option<seq<InputRef>>
  {
    if v in vars then Some(vars[v]) else None
  }

  /** Ranging over `i[v]`: an absent variable has no records. */
  function Records(vars: InputVars, v: VarName): seq<InputRef>
  {
    if v in vars then vars[v] else []
  }

  // ---------------------------------------------------------------------------
  // ExpandRef
  // ---------------------------------------------------------------------------

  /** Every location with `accessor` appended, in order. */
  function Extend(locs: seq<Ref>, accessor: Ref): seq<Ref>
  {
    seq(|locs|, j requires 0 <= j < |locs| => locs[j] + accessor)
  }

  /** What one record contributes to the expansion of `tail`. */
  function RecordExpansion(rec: InputRef, tail: Ref): seq<Ref>
  {
    if rec.IsParent(tail) then Extend(rec.locationsInInput, tail[|rec.locationInVar|..]) else []
  }

  /** The expansion of `tail` over a list of records, in record order. */
  function Expansion(recs: seq<InputRef>, tail: Ref): seq<Ref>
  {
    if recs == [] then []
    else Expansion(recs[..|recs| - 1], tail) + RecordExpansion(recs[|recs| - 1], tail)
  }

  /** The locations of `input` that `head.tail` reads. */
  function Expand(vars: InputVars, head: VarName, tail: Ref): (r: seq<Ref>)
    ensures head !in vars ==> r == []
  {
    Expansion(Records(vars, head), tail)
  }

  /** `InputVars.ExpandRef` (the unused `locals` parameter is dropped). */
  method ExpandRef(vars: InputVars, head: VarName, tail: Ref) returns (expanded: seq<Ref>)
    ensures expanded == Expand(vars, head, tail)
  {
    expanded := [];
    var recs := Records(vars, head);
    var i := 0;
    while i < |recs|
      invariant 0 <= i <= |recs|
      invariant expanded == Expansion(recs[..i], tail)
    {
      var inputRef := recs[i];
      if inputRef.IsParent(tail) {
        var accessor := tail[|inputRef.locationInVar|..];
        var locs := inputRef.locationsInInput;
        var j := 0;
        while j < |locs|
          invariant 0 <= j <= |locs|
          invariant expanded == Expansion(recs[..i], tail) + Extend(locs[..j], accessor)
        {
          expanded := expanded + [locs[j] + accessor];
          j := j + 1;
        }
        assert locs[..j] == locs;
      }
      assert recs[..i + 1][..i] == recs[..i];
      i := i + 1;
    }
    assert recs[..i] == recs;
  }

  /** Expansion distributes over concatenation of record lists: the result is
      in record order. */
  lemma {:induction false} ExpansionAppend(a: seq<InputRef>, b: seq<InputRef>, tail: Ref)
    ensures Expansion(a + b, tail) == Expansion(a, tail) + Expansion(b, tail)
    decreases |b|
  {
    if b == [] {
      assert a + b == a;
    } else {
      var b' := b[..|b| - 1];
      assert (a + b)[..|a + b| - 1] == a + b';
      assert (a + b)[|a + b| - 1] == b[|b| - 1];
      ExpansionAppend(a, b', tail);
    }
  }

  /** A location of `input` is in the expansion exactly when some record whose
      location is a prefix of `tail` lists a location that, extended by the
      rest of `tail`, is that location. */
  lemma {:induction false} ExpansionMember(recs: seq<InputRef>, tail: Ref, x: Ref)
    ensures x in Expansion(recs, tail) <==>
      exists i, j :: 0 <= i < |recs| && recs[i].IsParent(tail) && 0 <= j < |recs[i].locationsInInput| &&
        x == recs[i].locationsInInput[j] + tail[|recs[i].locationInVar|..]
    decreases |recs|
  {
    if recs != [] {
      var init := recs[..|recs| - 1];
      var last := recs[|recs| - 1];
      ExpansionMember(init, tail, x);
      if x in Expansion(recs, tail) {
        if x !in Expansion(init, tail) {
          assert x in RecordExpansion(last, tail);
          var j :| 0 <= j < |last.locationsInInput| && x == RecordExpansion(last, tail)[j];
          assert recs[|recs| - 1] == last;
        } else {
          var i, j :| 0 <= i < |init| && init[i].IsParent(tail) && 0 <= j < |init[i].locationsInInput| &&
            x == init[i].locationsInInput[j] + tail[|init[i].locationInVar|..];
          assert recs[i] == init[i];
        }
      } else {
        forall i, j | 0 <= i < |recs| && recs[i].IsParent(tail) && 0 <= j < |recs[i].locationsInInput|
          ensures x != recs[i].locationsInInput[j] + tail[|recs[i].locationInVar|..]
        {
          if i < |init| {
            assert recs[i] == init[i];
          } else {
            assert RecordExpansion(last, tail)[j] == recs[i].locationsInInput[j] + tail[|recs[i].locationInVar|..];
          }
        }
      }
    }
  }

  /** The number of locations listed by the records whose location is a prefix of `tail`. */
  function MatchedLocations(recs: seq<InputRef>, tail: Ref): nat
  {
    if recs == [] then 0
    else
      var last := recs[|recs| - 1];
      MatchedLocations(recs[..|recs| - 1], tail) + (if last.IsParent(tail) then |last.locationsInInput| else 0)
  }

  /** The expansion fans out: one result per location of every matching record. */
  lemma {:induction false} ExpansionLength(recs: seq<InputRef>, tail: Ref)
    ensures |Expansion(recs, tail)| == MatchedLocations(recs, tail)
    decreases |recs|
  {
    if recs != [] {
      ExpansionLength(recs[..|recs| - 1], tail);
    }
  }

  /** Reading further into an expanded location stays within the expansion:
      if `head.tail` reaches `x`, then `head.tail.more` reaches `x.more`. */
  lemma {:induction false} ExpansionExtends(recs: seq<InputRef>, tail: Ref, more: Ref, x: Ref)
    requires x in Expansion(recs, tail)
    ensures x + more in Expansion(recs, tail + more)
    decreases |recs|
  {
    var init := recs[..|recs| - 1];
    var last := recs[|recs| - 1];
    if x in Expansion(init, tail) {
      ExpansionExtends(init, tail, more, x);
    } else {
      var p := last.locationInVar;
      var locs := last.locationsInInput;
      assert x in RecordExpansion(last, tail);
      assert last.IsParent(tail);
      var j :| 0 <= j < |locs| && x == Extend(locs, tail[|p|..])[j];
      assert (tail + more)[..|p|] == tail[..|p|];
      assert (tail + more)[|p|..] == tail[|p|..] + more;
      assert last.IsParent(tail + more);
      assert x + more == locs[j] + (tail + more)[|p|..];
      assert x + more == RecordExpansion(last, tail + more)[j];
    }
  }

  /** With an empty tail, records whose location is the whole variable
      contribute their locations unchanged. */
  lemma {:induction false} ExpansionOfWholeVariable(recs: seq<InputRef>)
    requires forall i :: 0 <= i < |recs| ==> recs[i].locationInVar == []
    ensures Expansion(recs, []) == Locations(recs)
    decreases |recs|
  {
    if recs != [] {
      ExpansionOfWholeVariable(recs[..|recs| - 1]);
      var last := recs[|recs| - 1];
      assert last.IsParent([]);
      assert forall j :: 0 <= j < |last.locationsInInput| ==> last.locationsInInput[j] + [] == last.locationsInInput[j];
      assert Extend(last.locationsInInput, []) == last.locationsInInput;
    }
  }

  /** A list of records as the tracer builds them: at least one record, and
      every record names at least one location of `input`. */
  predicate RecordsOk(recs: seq<InputRef>)
  {
    |recs| > 0 && forall i :: 0 <= i < |recs| ==> |recs[i].locationsInInput| > 0
  }

  /** Every list of the map is well formed. */
  predicate VarsOk(vars: InputVars)
  {
    forall v :: v in vars ==> RecordsOk(vars[v])
  }

  /** The provenance map only grows: no variable disappears and every list of
      records keeps its earlier records as a prefix. */
  predicate VarsGrow(before: InputVars, after: InputVars)
  {
    forall v :: v in before ==> v in after && before[v] <= after[v]
  }

  // ---------------------------------------------------------------------------
  // AddInputRef
  // ---------------------------------------------------------------------------

  /** The provenance map after `AddInputRef(v, pathInVar, head, tail)`. */
  function AddRecord(vars: InputVars, v: VarName, pathInVar: Ref, head: VarName, tail: Ref): (r: InputVars)
    ensures VarsGrow(vars, r)
    ensures VarsOk(vars) ==> VarsOk(r)
    ensures r.Keys <= vars.Keys + {v}
  {
    var expanded := Expand(vars, head, tail);
    if |expanded| < 1 then vars
    else vars[v := Records(vars, v) + [InputRef(pathInVar, expanded)]]
  }

  /** `AddInputRef` is a no-op when the expansion is empty; otherwise it appends
      exactly one record to `v`'s list and leaves every other variable alone. */
  lemma AddRecordEffect(vars: InputVars, v: VarName, pathInVar: Ref, head: VarName, tail: Ref)
    ensures var r := AddRecord(vars, v, pathInVar, head, tail);
      && (Expand(vars, head, tail) == [] ==> r == vars)
      && (Expand(vars, head, tail) != [] ==>
            && r.Keys == vars.Keys + {v}
            && r[v] == Records(vars, v) + [InputRef(pathInVar, Expand(vars, head, tail))]
            && forall w :: w in vars && w != v ==> r[w] == vars[w])
  {
  }

  /** After `v = head.tail` is recorded at `pathInVar`, reading `v.rest` reaches
      what it reached before, followed by every expansion of `head.tail` with
      the rest of the path appended; other variables read as before. */
  lemma AddRecordExpand(vars: InputVars, v: VarName, pathInVar: Ref, head: VarName, tail: Ref, rest: Ref)
    ensures var r := AddRecord(vars, v, pathInVar, head, tail);
      Expand(r, v, rest) == Expand(vars, v, rest) +
        (if |pathInVar| <= |rest| && rest[..|pathInVar|] == pathInVar
         then Extend(Expand(vars, head, tail), rest[|pathInVar|..]) else [])
    ensures forall w :: w != v ==> Expand(AddRecord(vars, v, pathInVar, head, tail), w, rest) == Expand(vars, w, rest)
  {
    var expanded := Expand(vars, head, tail);
    if |expanded| >= 1 {
      var r := AddRecord(vars, v, pathInVar, head, tail);
      var rec := InputRef(pathInVar, expanded);
      assert Records(r, v) == Records(vars, v) + [rec];
      assert (Records(vars, v) + [rec])[..|Records(vars, v)|] == Records(vars, v);
    } else {
      assert expanded == [];
    }
  }

  /** Assignment chains: after `y = x.t0`, every location reached through
      `y.rest` was either reached through `y.rest` before or is reached
      through `x.t0.rest`. */
  lemma AssignmentChain(vars: InputVars, y: VarName, x: VarName, t0: Ref, rest: Ref, loc: Ref)
    requires loc in Expand(AddRecord(vars, y, [], x, t0), y, rest)
    ensures loc in Expand(vars, y, rest) || loc in Expand(vars, x, t0 + rest)
  {
    AddRecordExpand(vars, y, [], x, t0, rest);
    var before := Expand(vars, y, rest);
    var added := Extend(Expand(vars, x, t0), rest);
    assert rest[..0] == [] && rest[0..] == rest;
    if loc !in before {
      assert loc in added;
      var j :| 0 <= j < |added| && added[j] == loc;
      ExpansionExtends(Records(vars, x), t0, rest, Expand(vars, x, t0)[j]);
    }
  }

  // ---------------------------------------------------------------------------
  // RenderRefToString
  // ---------------------------------------------------------------------------

  /** OPA renders a string value quoted (`strconv.Quote`, escapes not modelled). */
  function Quote(s: string): (r: string)
    ensures |r| == |s| + 2
  {
    "\"" + s + "\""
  }

  /** `String()` of a string or number value. */
  function LiteralText(t: Term): string
    requires t.Str? || t.Num?
  {
    if t.Str? then Quote(t.s) else t.text
  }

  /** What one segment contributes to a rendering. */
  datatype Piece = Text(text: string) | Skip | Unbound

  /** A variable segment with no binding: it makes the whole rendering fail. */
  predicate IsUnbound(t: Term, locals: Locals)
  {
    t.Var? && t != InputRootDocument && t.name !in locals
  }

  function RenderPiece(t: Term, locals: Locals): (p: Piece)
    ensures p.Unbound? <==> IsUnbound(t, locals)
  {
    if t == InputRootDocument then Text(InputVar)
    else match t
      case Str(_) => Text(LiteralText(t))
      case Num(_) => Text(LiteralText(t))
      case Var(v) =>
        if v in locals then
          (if locals[v].Str? || locals[v].Num? then Text(LiteralText(locals[v])) else Skip)
        else Unbound
      case _ => Skip
  }

  /** The texts a reference renders to, in order, or None once a segment is unbound. */
  function Pieces(ref: Ref, locals: Locals): Option<seq<string>>
  {
    if ref == [] then Some([])
    else match Pieces(ref[..|ref| - 1], locals)
      case None => None
      case Some(ps) =>
        match RenderPiece(ref[|ref| - 1], locals)
        case Text(s) => Some(ps + [s])
        case Skip => Some(ps)
        case Unbound => None
  }

  /** `strings.Join` */
  function Join(parts: seq<string>, sep: string): string
  {
    if parts == [] then ""
    else if |parts| == 1 then parts[0]
    else parts[0] + sep + Join(parts[1..], sep)
  }

  /** The dotted string of a reference, or "" when some variable is unbound. */
  function Render(ref: Ref, locals: Locals): string
  {
    match Pieces(ref, locals)
    case None => ""
    case Some(ps) => Join(ps, ".")
  }

  /** Rendering fails exactly when some variable segment has no binding; a
      bound variable whose value is not a string or a number does not make it
      fail. */
  lemma {:induction false} PiecesFail(ref: Ref, locals: Locals)
    ensures Pieces(ref, locals).None? <==> exists i :: 0 <= i < |ref| && IsUnbound(ref[i], locals)
    decreases |ref|
  {
    if ref != [] {
      var init := ref[..|ref| - 1];
      PiecesFail(init, locals);
      if exists i :: 0 <= i < |init| && IsUnbound(init[i], locals) {
        var i :| 0 <= i < |init| && IsUnbound(init[i], locals);
        assert ref[i] == init[i];
      }
      if exists i :: 0 <= i < |ref| && IsUnbound(ref[i], locals) {
        var i :| 0 <= i < |ref| && IsUnbound(ref[i], locals);
        if i < |init| {
          assert init[i] == ref[i];
        }
      }
    }
  }

  /** Every rendered piece comes from one segment: at most `|ref|` of them. */
  lemma {:induction false} PiecesBound(ref: Ref, locals: Locals)
    requires Pieces(ref, locals).Some?
    ensures |Pieces(ref, locals).value| <= |ref|
    decreases |ref|
  {
    if ref != [] {
      PiecesBound(ref[..|ref| - 1], locals);
    }
  }

  /** A rendering that fails is the empty string. */
  lemma RenderUnbound(ref: Ref, locals: Locals, i: nat)
    requires i < |ref| && IsUnbound(ref[i], locals)
    ensures Render(ref, locals) == ""
  {
    PiecesFail(ref, locals);
  }

  /** `InputVars.RenderRefToString` */
  method RenderRefToString(ref: Ref, locals: Locals) returns (joined: string)
    ensures joined == Render(ref, locals)
  {
    var rendered: seq<string> := [];
    var i := 0;
    while i < |ref|
      invariant 0 <= i <= |ref|
      invariant Pieces(ref[..i], locals) == Some(rendered)
    {
      var t := ref[i];
      assert ref[..i + 1][..i] == ref[..i];
      if t == InputRootDocument {
        rendered := rendered + [InputVar];
      } else {
        match t
        case Str(_) =>
          rendered := rendered + [LiteralText(t)];
        case Num(_) =>
          rendered := rendered + [LiteralText(t)];
        case Var(val) =>
          if val in locals {
            var v := locals[val];
            if v.Str? || v.Num? {
              rendered := rendered + [LiteralText(v)];
            }
          } else {
            RenderUnbound(ref, locals, i);
            return "";
          }
        case _ =>
      }
      i := i + 1;
    }
    assert ref[..i] == ref;
    joined := Join(rendered, ".");
  }

  // ---------------------------------------------------------------------------
  // RenderVarToStrings
  // ---------------------------------------------------------------------------

  /** All locations of all records, in order. */
  function Locations(recs: seq<InputRef>): seq<Ref>
  {
    if recs == [] then []
    else Locations(recs[..|recs| - 1]) + recs[|recs| - 1].locationsInInput
  }

  /** The non-empty renderings of a list of references, in order. */
  function NonEmptyRenders(refs: seq<Ref>, locals: Locals): seq<string>
  {
    if refs == [] then []
    else
      var s := Render(refs[|refs| - 1], locals);
      NonEmptyRenders(refs[..|refs| - 1], locals) + (if s != "" then [s] else [])
  }

  lemma NonEmptyRendersSnoc(refs: seq<Ref>, x: Ref, locals: Locals)
    ensures NonEmptyRenders(refs + [x], locals) ==
      NonEmptyRenders(refs, locals) + (if Render(x, locals) != "" then [Render(x, locals)] else [])
  {
    assert (refs + [x])[..|refs|] == refs;
  }

  /** A string is among the non-empty renderings exactly when some reference renders to it. */
  lemma {:induction false} NonEmptyRendersMember(refs: seq<Ref>, locals: Locals, s: string)
    ensures s in NonEmptyRenders(refs, locals) <==> s != "" && exists k :: 0 <= k < |refs| && Render(refs[k], locals) == s
    decreases |refs|
  {
    if refs != [] {
      var init := refs[..|refs| - 1];
      NonEmptyRendersMember(init, locals, s);
      if exists k :: 0 <= k < |init| && Render(init[k], locals) == s {
        var k :| 0 <= k < |init| && Render(init[k], locals) == s;
        assert refs[k] == init[k];
      }
      if exists k :: 0 <= k < |refs| && Render(refs[k], locals) == s {
        var k :| 0 <= k < |refs| && Render(refs[k], locals) == s;
        if k < |init| {
          assert init[k] == refs[k];
        }
      }
    }
  }

  lemma {:induction false} NonEmptyRendersAppend(a: seq<Ref>, b: seq<Ref>, locals: Locals)
    ensures NonEmptyRenders(a + b, locals) == NonEmptyRenders(a, locals) + NonEmptyRenders(b, locals)
    decreases |b|
  {
    if b == [] {
      assert a + b == a;
    } else {
      var init, x := b[..|b| - 1], b[|b| - 1];
      assert b == init + [x];
      assert a + b == (a + init) + [x];
      NonEmptyRendersAppend(a, init, locals);
      NonEmptyRendersSnoc(a + init, x, locals);
      NonEmptyRendersSnoc(init, x, locals);
    }
  }

  /** The inner loop of `RenderVarToStrings`: the non-empty renderings of
      `refs`, in order. */
  method RenderAll(refs: seq<Ref>, locals: Locals) returns (out: seq<string>)
    ensures out == NonEmptyRenders(refs, locals)
  {
    out := [];
    var j := 0;
    while j < |refs|
      invariant 0 <= j <= |refs|
      invariant out == NonEmptyRenders(refs[..j], locals)
    {
      var r := RenderRefToString(refs[j], locals);
      assert refs[..j + 1] == refs[..j] + [refs[j]];
      NonEmptyRendersSnoc(refs[..j], refs[j], locals);
      if r != "" {
        out := out + [r];
      }
      j := j + 1;
    }
    assert refs[..j] == refs;
  }

  /** `InputVars.RenderVarToStrings` */
  method RenderVarToStrings(vars: InputVars, v: VarName, locals: Locals) returns (rendered: seq<string>)
    ensures rendered == NonEmptyRenders(Locations(Records(vars, v)), locals)
  {
    rendered := [];
    if v in vars {
      var inputRefs := vars[v];
      var i := 0;
      while i < |inputRefs|
        invariant 0 <= i <= |inputRefs|
        invariant rendered == NonEmptyRenders(Locations(inputRefs[..i]), locals)
      {
        var part := RenderAll(inputRefs[i].locationsInInput, locals);
        rendered := rendered + part;
        NonEmptyRendersAppend(Locations(inputRefs[..i]), inputRefs[i].locationsInInput, locals);
        assert inputRefs[..i + 1][..i] == inputRefs[..i];
        i := i + 1;
      }
      assert inputRefs[..i] == inputRefs;
    }
  }

  /** When every record of `v` covers the whole variable, rendering the
      variable is rendering the expansion of `v` itself. */
  lemma RenderVarIsRenderedExpansion(vars: InputVars, v: VarName, locals: Locals)
    requires forall i :: 0 <= i < |Records(vars, v)| ==> Records(vars, v)[i].locationInVar == []
    ensures NonEmptyRenders(Locations(Records(vars, v)), locals) == NonEmptyRenders(Expand(vars, v, []), locals)
  {
    ExpansionOfWholeVariable(Records(vars, v));
  }

  // ---------------------------------------------------------------------------
  // RenderRef
  // ---------------------------------------------------------------------------

  /** A segment after substituting its binding; None when the segment is dropped. */
  function SubstitutedSegment(t: Term, locals: Locals): Option<Term>
  {
    if t == InputRootDocument then Some(t)
    else match t
      case Str(_) => Some(t)
      case Num(_) => Some(t)
      case Var(v) => if v in locals then Some(locals[v]) else Some(t)
      case _ => None
  }

  /** A reference with bound variables replaced by their values; reference and
      other non-literal segments are dropped. */
  function Substituted(ref: Ref, locals: Locals): (r: Ref)
    ensures |r| <= |ref|
  {
    if ref == [] then []
    else
      var kept := match SubstitutedSegment(ref[|ref| - 1], locals)
        case Some(t) => [t]
        case None => [];
      Substituted(ref[..|ref| - 1], locals) + kept
  }

  /** `InputVars.RenderRef` */
  method RenderRef(ref: Ref, locals: Locals) returns (rendered: Ref)
    ensures rendered == Substituted(ref, locals)
  {
    rendered := [];
    var i := 0;
    while i < |ref|
      invariant 0 <= i <= |ref|
      invariant rendered == Substituted(ref[..i], locals)
    {
      var t := ref[i];
      assert ref[..i + 1][..i] == ref[..i];
      if t == InputRootDocument {
        rendered := rendered + [t];
      } else {
        match t
        case Str(_) =>
          rendered := rendered + [t];
        case Num(_) =>
          rendered := rendered + [t];
        case Var(val) =>
          if val in locals {
            rendered := rendered + [locals[val]];
          } else {
            rendered := rendered + [t];
          }
        case _ =>
      }
      i := i + 1;
    }
    assert ref[..i] == ref;
  }

  /** No local binding is itself a variable (a hypothesis: a variable unified
      with a still-unbound variable plugs to that variable). */
  predicate GroundLocals(locals: Locals)
  {
    forall v :: v in locals ==> !locals[v].Var?
  }

  /** Substituting the bindings first and then rendering with no bindings at all
      gives the same string as rendering with the bindings. */
  lemma {:induction false} RenderAfterSubstitution(ref: Ref, locals: Locals)
    requires GroundLocals(locals)
    ensures Pieces(Substituted(ref, locals), map[]) == Pieces(ref, locals)
    ensures Render(Substituted(ref, locals), map[]) == Render(ref, locals)
    decreases |ref|
  {
    if ref != [] {
      var init := ref[..|ref| - 1];
      var t := ref[|ref| - 1];
      RenderAfterSubstitution(init, locals);
      var s := Substituted(init, locals);
      match SubstitutedSegment(t, locals)
      case None =>
        assert Substituted(ref, locals) == s;
      case Some(u) =>
        assert Substituted(ref, locals) == s + [u];
        assert (s + [u])[..|s|] == s;
        assert RenderPiece(u, map[]) == RenderPiece(t, locals);
    }
  }

  // ---------------------------------------------------------------------------
  // coerceAssignmentOperands
  // ---------------------------------------------------------------------------

  /** `coerceAssignmentOperands`: the variable and the reference of `var = ref`
      or `ref = var`; None where the source returns `("", nil)`. */
  function CoerceAssignmentOperands(terms: seq<Term>): (r: Option<(VarName, Ref)>)
    requires AssignmentArity(terms)
    ensures r.Some? <==> (terms[0].Var? && terms[1].RefTerm?) || (terms[0].RefTerm? && terms[1].Var?)
    ensures r.Some? ==> Var(r.value.0) in terms[..2] && RefTerm(r.value.1) in terms[..2]
  {
    if terms[0].Var? then
      (if terms[1].RefTerm? then Some((terms[0].name, terms[1].path)) else None)
    else if terms[0].RefTerm? then
      (if terms[1].Var? then Some((terms[1].name, terms[0].path)) else None)
    else None
  }

  /** The order of the two operands of a unification does not matter. */
  lemma CoerceSymmetric(terms: seq<Term>)
    requires |terms| >= 2
    ensures CoerceAssignmentOperands(terms) == CoerceAssignmentOperands([terms[1], terms[0]] + terms[2..])
  {
  }
}

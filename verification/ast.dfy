/**
 * The parts of OPA's `ast` and `topdown` packages that the multi-reference
 * tracer reads: terms, references, expressions with their `with` clauses,
 * rule heads and trace events.  Only the shapes the tracer distinguishes are
 * kept; every other kind of value is an `Other` term.
 */
module Ast {

  datatype Option<T> = None | Some(value: T)

  /** Name of a Rego variable (`ast.Var`). */
  type VarName = string

  /** A term's value.  OPA's root document `input` is the variable `input`. */
  datatype Term =
    | Var(name: VarName)
    | Str(s: string)
    /** A number keeps the literal text it was written with (a `json.Number`). */
    | Num(text: string)
    | RefTerm(path: seq<Term>)
    /** Booleans, null, arrays, objects, sets, calls and comprehensions. */
    | Other(id: nat)

  /** `ast.Ref`: a path of terms. */
  type Ref = seq<Term>

  const InputVar: VarName := "input"
  /** `ast.InputRootDocument` */
  const InputRootDocument: Term := Var(InputVar)
  /** `ast.InputRootRef` */
  const InputRootRef: Ref := [InputRootDocument]
  /** The operator of a unification `x = y` (multireftracer.go `EQ_OP`). */
  const EqOp: Ref := [Var("eq")]
  /** The operator of `object.get` (multireftracer.go `OBJECT_GET_OP`). */
  const ObjectGetOp: Ref := [Var("object"), Str("get")]

  /** The plugged local bindings delivered with an event (`*ast.ValueMap`);
      a nil map and an empty map look the same to `Get`. */
  type Locals = map<VarName, Term>

  datatype With = With(target: Term, value: Term)

  /** `Expr.Terms`: either a call (operator reference and operands) or a single term. */
  datatype ExprTerms =
    | Call(operator: Ref, operands: seq<Term>)
    | Single(term: Term)

  datatype Expr = Expr(terms: ExprTerms, withClauses: seq<With>)
  {
    /** `Expr.Operator()`: nil (here the empty reference) unless the expression is a call. */
    function Operator(): Ref
    {
      if terms.Call? then terms.operator else []
    }

    /** `Expr.Operands()`: nil unless the expression is a call. */
    function Operands(): seq<Term>
    {
      if terms.Call? then terms.operands else []
    }
  }

  /** A rule head; only the term the rule defines is kept (`Head.Value`). */
  datatype Head = Head(value: Term)

  /** The syntax node an event is about. */
  datatype Node =
    | RuleNode(head: Head)
    | ExprNode(expr: Expr)
    | OtherNode

  /** `topdown.Op` */
  datatype Op = Enter | Exit | Eval | Redo | Save | Fail | Duplicate | Note | Index | Wasm | Unify

  /** `topdown.Event`, restricted to the fields the tracer reads.  Query
      identifiers are unsigned 64-bit in the source; here they are naturals. */
  datatype Event = Event(op: Op, queryID: nat, parentID: nat, node: Node, locals: Locals)

  /** A reference term the tracer can take the head of (`v[0]` in the source). */
  predicate IndexableTerm(t: Term)
  {
    t.RefTerm? ==> |t.path| > 0
  }

  /** `coerceAssignmentOperands` reads `terms[0]`, and `terms[1]` when the
      first operand is a variable or a reference. */
  predicate AssignmentArity(ts: seq<Term>)
  {
    |ts| >= 1 && ((ts[0].Var? || ts[0].RefTerm?) ==> |ts| >= 2)
  }

  /** The `object.get` branch reads operands 0, 1 and 3, each only when the
      previous one had the kind the branch looks for. */
  predicate ObjectGetArity(ts: seq<Term>)
  {
    |ts| >= 1 && (ts[0].Var? ==> |ts| >= 2 && (ts[1].Str? ==> |ts| >= 4))
  }

  /** Every reference operand has a head. */
  predicate OperandsIndexable(x: Expr)
  {
    forall i :: 0 <= i < |x.Operands()| ==> IndexableTerm(x.Operands()[i])
  }
}

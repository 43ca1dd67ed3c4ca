/**
  The evaluator of the Pump meta-language: first as a compositional meaning of syntax
  trees over scopes, then as methods that update environments and append to an output.
  The evaluation of Python expressions is a parameter.
 */
module PumpEvaluator {
  import opened Collections
  import opened Decimals
  import opened PumpSyntax

  /** The value of a meta variable: text that looks like an integer is kept as one. */
  datatype Value = Int(n: int) | Text(s: string) {
    function Show(): string { if Int? then Signed(n) else s }
  }

  /** What the evaluator observes of a Python value. */
  datatype Observed = Observed(text: string, truth: bool, asInt: Option<int>)

  datatype Bounds = Bounds(name: string, lower: int, upper: int)

  type Variables = seq<(string, Value)>

  /** The contents of an environment, the latest binding first. */
  datatype Scope = Scope(variables: Variables, ranges: seq<Bounds>) {
    function PushVariable(name: string, value: Value): Scope {
      this.(variables := [(name, Stored(value))] + variables)
    }

    function PushRange(name: string, lower: int, upper: int): Scope {
      this.(ranges := [Bounds(name, lower, upper)] + ranges)
    }
  }

  function Stored(value: Value): Value {
    if value.Int? then value
    else match CanonicalInt(value.s) case Some(n) => Int(n) case None => value
  }

  /** Keeping text as an integer never changes how it is shown. */
  lemma StoredShowsSame(value: Value)
    ensures Stored(value).Show() == value.Show()
    ensures Stored(value).Text? ==> forall n :: Signed(n) != value.Show()
  {
    if value.Text? {
      forall n
        ensures CanonicalInt(value.s) == Some(n) <==> Signed(n) == value.s
      {
        CanonicalIntExact(value.s, n);
      }
    }
  }

  function FindRange(ranges: seq<Bounds>, name: string): Option<Bounds> {
    if ranges == [] then None
    else if ranges[0].name == name then Some(ranges[0])
    else FindRange(ranges[1..], name)
  }

  /** The value of the latest binding of a name. */
  function FindVariable(variables: Variables, name: string): Option<Value> {
    if variables == [] then None
    else if variables[0].0 == name then Some(variables[0].1)
    else FindVariable(variables[1..], name)
  }

  function StripLeft(s: string): string {
    if s != "" && IsSpace(s[0]) then StripLeft(s[1..]) else s
  }

  function StripRight(s: string): string {
    if s != "" && IsSpace(s[|s| - 1]) then StripRight(s[..|s| - 1]) else s
  }

  function NameIn(id: Token): string { StripRight(StripLeft(id.value)) }

  /** Expression evaluation: None when it raises an exception. */
  type Eval = (Token, Variables) -> Option<Observed>

  // ---- the meaning of trees ----

  /** The program stopped with an error, or produced text and left a scope behind. */
  datatype Run = Stops | Runs(text: string, scope: Scope) {
    predicate IsFailure() { Stops? }

    function PropagateFailure(): Run
      requires Stops?
    {
      Stops
    }

    function Extract(): (string, Scope)
      requires Runs?
    {
      (text, scope)
    }

    /** The same run with more text in front. */
    function After(front: string): Run {
      if Stops? then Stops else Runs(front + text, scope)
    }

    /** The same text, leaving the given scope: the run took place in a copy of it. */
    function In(outer: Scope): Run {
      if Stops? then Stops else Runs(text, outer)
    }
  }

  function RunAtom(eval: Eval, node: Node, scope: Scope): Run
    decreases node, 2
  {
    match node
    case VarNode(id, definition) =>
      var (text, _) :- RunAtom(eval, definition, scope);
      Runs("", scope.PushVariable(NameIn(id), Text(text)))
    case RangeNode(id, exp1, exp2) =>
      (match (BoundOf(eval, exp1, scope), BoundOf(eval, exp2, scope))
       case (Some(lower), Some(upper)) => Runs("", scope.PushRange(NameIn(id), lower, upper))
       case _ => Stops)
    case ForNode(id, sep, body) =>
      var between := if sep.Some? then sep.value.value else "";
      (match FindRange(scope.ranges, NameIn(id))
       case None => Stops
       case Some(b) => RunFor(eval, NameIn(id), between, body, scope, b.lower, b.upper))
    case RawCodeNode(t) => Runs(t.value, scope)
    case IfNode(exp, thenBranch, elseBranch) =>
      (match eval(exp, scope.variables)
       case None => Stops
       case Some(v) =>
         if v.truth then RunBody(eval, thenBranch, scope)
         else if elseBranch.Some? then RunBody(eval, elseBranch.value, scope)
         else Runs("", scope))
    case ExpNode(exp) =>
      (match eval(exp, scope.variables)
       case None => Stops
       case Some(v) => Runs(v.text, scope))
    case LiteralDollarNode(_) => Runs("$", scope)
    case CodeNode(_) => RunBody(eval, node, scope)
  }

  function BoundOf(eval: Eval, exp: Token, scope: Scope): Option<int> {
    match eval(exp, scope.variables) case None => None case Some(v) => v.asInt
  }

  /** A piece of code run in a copy of the scope. */
  function RunBody(eval: Eval, node: Node, scope: Scope): Run
    decreases node, 1
  {
    if node.CodeNode? then RunAtoms(eval, node.atoms, scope).In(scope) else Stops
  }

  function RunAtoms(eval: Eval, atoms: seq<Node>, scope: Scope): Run
    decreases atoms, 0
  {
    if atoms == [] then Runs("", scope)
    else
      var (text, next) :- RunAtom(eval, atoms[0], scope);
      RunAtoms(eval, atoms[1..], next).After(text)
  }

  /** The iterations from i on, with the separator after each but the last. */
  function RunFor(eval: Eval, name: string, sep: string, body: Node, scope: Scope, i: int, upper: int): (r: Run)
    ensures r.Runs? ==> r.scope == scope
    decreases body, 2, upper + 1 - i
  {
    if i > upper then Runs("", scope)
    else
      var (text, _) :- RunBody(eval, body, scope.PushVariable(name, Int(i)));
      RunFor(eval, name, sep, body, scope, i + 1, upper).After(text + if i != upper then sep else "")
  }

  // ---- the evaluator over mutable environments and output ----

  class Env {
    var variables: Variables
    var ranges: seq<Bounds>

    constructor (scope: Scope)
      ensures Contents() == scope
    {
      variables, ranges := scope.variables, scope.ranges;
    }

    function Contents(): Scope
      reads this
    {
      Scope(variables, ranges)
    }

    method Clone() returns (clone: Env)
      ensures fresh(clone) && clone.Contents() == Contents()
    {
      clone := new Env(Contents());
    }

    method PushVariable(name: string, value: Value)
      modifies this
      ensures Contents() == old(Contents()).PushVariable(name, value)
    {
      variables := [(name, Stored(value))] + variables;
    }

    method PushRange(name: string, lower: int, upper: int)
      modifies this
      ensures Contents() == old(Contents()).PushRange(name, lower, upper)
    {
      ranges := [Bounds(name, lower, upper)] + ranges;
    }

    method GetValue(identifier: string) returns (r: Option<Value>)
      ensures r == FindVariable(variables, identifier)
    {
      for i := 0 to |variables|
        invariant FindVariable(variables[i..], identifier) == FindVariable(variables, identifier)
      {
        if variables[i].0 == identifier {
          return Some(variables[i].1);
        }
        assert variables[i..][1..] == variables[i + 1..];
      }
      return None;
    }

    method GetRange(name: string) returns (r: Option<Bounds>)
      ensures r == FindRange(ranges, name)
    {
      for i := 0 to |ranges|
        invariant FindRange(ranges[i..], name) == FindRange(ranges, name)
      {
        if ranges[i].name == name {
          return Some(ranges[i]);
        }
        assert ranges[i..][1..] == ranges[i + 1..];
      }
      return None;
    }
  }

  class Output {
    var text: string

    constructor ()
      ensures text == ""
    {
      text := "";
    }

    method Append(s: string)
      modifies this
      ensures text == old(text) + s
    {
      text := text + s;
    }
  }

  /** A procedure only appended to the output, and exactly what the meaning r says. */
  ghost predicate Appended(ok: bool, before: string, after: string, r: Run) {
    (ok <==> r.Runs?) && (ok ==> after == before + r.text)
  }

  method RunAtomicCode(eval: Eval, env: Env, node: Node, output: Output) returns (ok: bool)
    modifies env, output
    ensures Appended(ok, old(output.text), output.text, RunAtom(eval, node, old(env.Contents())))
    ensures ok ==> env.Contents() == RunAtom(eval, node, old(env.Contents())).scope
    decreases node, 2
  {
    match node {
      case VarNode(id, definition) =>
        var identifier := NameIn(id);
        var result := new Output();
        var inner := env.Clone();
        ok := RunAtomicCode(eval, inner, definition, result);
        if ok {
          ghost var text := RunAtom(eval, definition, old(env.Contents())).text;
          assert result.text == "" + text == text;
          env.PushVariable(identifier, Text(result.text));
        }
      case RangeNode(id, exp1, exp2) =>
        var lower, upper := BoundOf(eval, exp1, env.Contents()), BoundOf(eval, exp2, env.Contents());
        ok := lower.Some? && upper.Some?;
        if ok {
          env.PushRange(NameIn(id), lower.value, upper.value);
        }
      case ForNode(id, sep, body) =>
        var between := if sep.Some? then sep.value.value else "";
        var bounds := env.GetRange(NameIn(id));
        ok := bounds.Some?;
        if ok {
          ok := RunIterations(eval, env, NameIn(id), between, body, bounds.value.lower, bounds.value.upper, output);
        }
      case RawCodeNode(t) =>
        output.Append(t.value);
        ok := true;
      case IfNode(exp, thenBranch, elseBranch) =>
        var cond := eval(exp, env.variables);
        ok := cond.Some?;
        if ok && cond.value.truth {
          var inner := env.Clone();
          ok := RunCode(eval, inner, thenBranch, output);
        } else if ok && elseBranch.Some? {
          var inner := env.Clone();
          ok := RunCode(eval, inner, elseBranch.value, output);
        }
      case ExpNode(exp) =>
        var value := eval(exp, env.variables);
        ok := value.Some?;
        if ok {
          output.Append(value.value.text);
        }
      case LiteralDollarNode(_) =>
        output.Append("$");
        ok := true;
      case CodeNode(_) =>
        var inner := env.Clone();
        ok := RunCode(eval, inner, node, output);
    }
  }

  /** The loop of $for: each iteration runs in its own copy of the environment. */
  method RunIterations(eval: Eval, env: Env, name: string, sep: string, body: Node, lower: int, upper: int,
                       output: Output) returns (ok: bool)
    modifies output
    ensures Appended(ok, old(output.text), output.text,
                     RunFor(eval, name, sep, body, env.Contents(), lower, upper))
    decreases body, 3
  {
    ghost var scope, start := env.Contents(), output.text;
    ghost var whole := RunFor(eval, name, sep, body, scope, lower, upper);
    ghost var done := "";
    var i := lower;
    while i <= upper
      invariant output.text == start + done && env.Contents() == scope
      invariant whole == RunFor(eval, name, sep, body, scope, i, upper).After(done)
      decreases upper - i
    {
      ok := RunIteration(eval, env, name, sep, body, i, upper, output);
      if !ok {
        return false;
      }
      ghost var piece := RunBody(eval, body, scope.PushVariable(name, Int(i))).text + if i != upper then sep else "";
      AfterAfter(RunFor(eval, name, sep, body, scope, i + 1, upper), done, piece);
      done := done + piece;
      i := i + 1;
    }
    return true;
  }

  /** One iteration, followed by the separator unless it is the last. */
  method RunIteration(eval: Eval, env: Env, name: string, sep: string, body: Node, i: int, upper: int,
                      output: Output) returns (ok: bool)
    modifies output
    ensures var r := RunBody(eval, body, env.Contents().PushVariable(name, Int(i)));
            && (ok <==> r.Runs?)
            && (ok ==> output.text == old(output.text) + (r.text + if i != upper then sep else ""))
    decreases body, 2
  {
    var newEnv := env.Clone();
    newEnv.PushVariable(name, Int(i));
    ok := RunCode(eval, newEnv, body, output);
    if ok && i != upper {
      output.Append(sep);
    }
  }

  /** Runs the pieces of a code node in the given environment itself. */
  method RunCode(eval: Eval, env: Env, node: Node, output: Output) returns (ok: bool)
    modifies env, output
    ensures Appended(ok, old(output.text), output.text, RunBody(eval, node, old(env.Contents())))
    ensures ok ==> node.CodeNode? && env.Contents() == RunAtoms(eval, node.atoms, old(env.Contents())).scope
    decreases node, 1
  {
    if !node.CodeNode? {
      return false;
    }
    var atoms := node.atoms;
    ghost var start := output.text;
    ghost var whole := RunAtoms(eval, atoms, env.Contents());
    ghost var done := "";
    for i := 0 to |atoms|
      invariant output.text == start + done
      invariant whole == RunAtoms(eval, atoms[i..], env.Contents()).After(done)
    {
      ghost var scope := env.Contents();
      assert atoms[i..][1..] == atoms[i + 1..];
      ok := RunAtomicCode(eval, env, atoms[i], output);
      if !ok {
        return false;
      }
      ghost var piece := RunAtom(eval, atoms[i], scope).text;
      AfterAfter(RunAtoms(eval, atoms[i + 1..], env.Contents()), done, piece);
      done := done + piece;
    }
    return true;
  }

  lemma AfterAfter(r: Run, front: string, piece: string)
    ensures r.After(piece).After(front) == r.After(front + piece)
  {
    if r.Runs? {
      assert front + (piece + r.text) == (front + piece) + r.text;
    }
  }

  // ---- laws of the meaning ----

  /** The meaning is compositional: code in sequence runs the second part where the first left off. */
  lemma {:induction false} SequenceRuns(eval: Eval, a: seq<Node>, b: seq<Node>, scope: Scope)
    ensures RunAtoms(eval, a + b, scope) ==
            (var first := RunAtoms(eval, a, scope);
             if first.Stops? then Stops else RunAtoms(eval, b, first.scope).After(first.text))
    decreases |a|
  {
    if a == [] {
      assert a + b == b;
      AfterNothing(RunAtoms(eval, b, scope));
    } else {
      assert (a + b)[1..] == a[1..] + b;
      var head := RunAtom(eval, a[0], scope);
      if head.Runs? {
        SequenceRuns(eval, a[1..], b, head.scope);
        var tail := RunAtoms(eval, a[1..], head.scope);
        if tail.Runs? {
          AfterAfter(RunAtoms(eval, b, tail.scope), head.text, tail.text);
        }
      }
    }
  }

  lemma AfterNothing(r: Run)
    ensures r.After("") == r
  {
    if r.Runs? {
      assert "" + r.text == r.text;
    }
  }

  /** Which names a piece of code binds in the scope it runs in, the latest first. */
  function BoundVariables(atoms: seq<Node>): seq<string> {
    if atoms == [] then []
    else BoundVariables(atoms[1..]) + if atoms[0].VarNode? then [NameIn(atoms[0].id)] else []
  }

  function BoundRanges(atoms: seq<Node>): seq<string> {
    if atoms == [] then []
    else BoundRanges(atoms[1..]) + if atoms[0].RangeNode? then [NameIn(atoms[0].id)] else []
  }

  /** scope' extends scope in front by bindings of exactly the given names. */
  ghost predicate Extends(scope: Scope, scope': Scope, variables: seq<string>, ranges: seq<string>) {
    && |scope'.variables| == |variables| + |scope.variables|
    && |scope'.ranges| == |ranges| + |scope.ranges|
    && scope'.variables[|variables|..] == scope.variables
    && scope'.ranges[|ranges|..] == scope.ranges
    && (forall i | 0 <= i < |variables| :: scope'.variables[i].0 == variables[i])
    && (forall i | 0 <= i < |ranges| :: scope'.ranges[i].name == ranges[i])
  }

  /** One atom adds at most one binding, in front, and only $var and $range add any. */
  lemma AtomExtends(eval: Eval, node: Node, scope: Scope)
    requires RunAtom(eval, node, scope).Runs?
    ensures Extends(scope, RunAtom(eval, node, scope).scope,
                    if node.VarNode? then [NameIn(node.id)] else [],
                    if node.RangeNode? then [NameIn(node.id)] else [])
  {
  }

  lemma ExtendsTrans(s0: Scope, s1: Scope, s2: Scope, v1: seq<string>, r1: seq<string>, v2: seq<string>, r2: seq<string>)
    requires Extends(s0, s1, v1, r1) && Extends(s1, s2, v2, r2)
    ensures Extends(s0, s2, v2 + v1, r2 + r1)
  {
    assert s2.variables == s2.variables[..|v2|] + s1.variables;
    assert s2.ranges == s2.ranges[..|r2|] + s1.ranges;
  }

  /** Running code adds one front binding for each $var and $range at its top level, in
      order, and nothing for those inside nested code. */
  lemma {:induction false} CodeExtends(eval: Eval, atoms: seq<Node>, scope: Scope)
    requires RunAtoms(eval, atoms, scope).Runs?
    ensures Extends(scope, RunAtoms(eval, atoms, scope).scope, BoundVariables(atoms), BoundRanges(atoms))
    decreases |atoms|
  {
    if atoms != [] {
      var next := RunAtom(eval, atoms[0], scope).scope;
      AtomExtends(eval, atoms[0], scope);
      CodeExtends(eval, atoms[1..], next);
      ExtendsTrans(scope, next, RunAtoms(eval, atoms, scope).scope,
                   if atoms[0].VarNode? then [NameIn(atoms[0].id)] else [],
                   if atoms[0].RangeNode? then [NameIn(atoms[0].id)] else [],
                   BoundVariables(atoms[1..]), BoundRanges(atoms[1..]));
    }
  }

  lemma ExtendsByNothing(scope: Scope, scope': Scope)
    requires Extends(scope, scope', [], [])
    ensures scope' == scope
  {
    assert scope'.variables == scope'.variables[0..] && scope'.ranges == scope'.ranges[0..];
  }

  /** A nested block that binds nothing at its top level may as well be written inline. */
  lemma BlockWithoutBindingsIsInline(eval: Eval, a: seq<Node>, inner: seq<Node>, b: seq<Node>, scope: Scope)
    requires BoundVariables(inner) == [] && BoundRanges(inner) == []
    ensures RunAtoms(eval, a + [CodeNode(inner)] + b, scope) == RunAtoms(eval, a + inner + b, scope)
  {
    var first := RunAtoms(eval, a, scope);
    assert a + [CodeNode(inner)] + b == a + ([CodeNode(inner)] + b) && a + inner + b == a + (inner + b);
    SequenceRuns(eval, a, [CodeNode(inner)] + b, scope);
    SequenceRuns(eval, a, inner + b, scope);
    if first.Runs? {
      var s, both := first.scope, [CodeNode(inner)] + b;
      SequenceRuns(eval, inner, b, s);
      if RunAtoms(eval, inner, s).Runs? {
        CodeExtends(eval, inner, s);
        ExtendsByNothing(s, RunAtoms(eval, inner, s).scope);
      }
      assert RunAtom(eval, CodeNode(inner), s) == RunBody(eval, CodeNode(inner), s) == RunAtoms(eval, inner, s);
      assert both[0] == CodeNode(inner) && both[1..] == b;
      assert RunAtoms(eval, both, s) == RunAtoms(eval, inner + b, s);
    }
  }

  /** The text of each iteration of a $for, as long as none stops. */
  function Iterations(eval: Eval, name: string, body: Node, scope: Scope, i: int, upper: int): Option<seq<string>>
    decreases upper + 1 - i
  {
    if i > upper then Some([])
    else
      var run := RunBody(eval, body, scope.PushVariable(name, Int(i)));
      var rest := Iterations(eval, name, body, scope, i + 1, upper);
      if run.Stops? || rest.None? then None else Some([run.text] + rest.value)
  }

  function Join(texts: seq<string>, sep: string): string {
    if texts == [] then ""
    else if |texts| == 1 then texts[0]
    else texts[0] + sep + Join(texts[1..], sep)
  }

  lemma {:induction false} IterationTexts(eval: Eval, name: string, body: Node, scope: Scope, i: int, upper: int)
    requires Iterations(eval, name, body, scope, i, upper).Some?
    ensures var texts := Iterations(eval, name, body, scope, i, upper).value;
            && |texts| == (if upper < i then 0 else upper - i + 1)
            && forall k | 0 <= k < |texts| ::
                 RunBody(eval, body, scope.PushVariable(name, Int(i + k))) == Runs(texts[k], scope.PushVariable(name, Int(i + k)))
    decreases upper + 1 - i
  {
    if i <= upper {
      IterationTexts(eval, name, body, scope, i + 1, upper);
    }
  }

  /** $for yields the texts of the body for lower .. upper, with the separator strictly
      between them, and leaves the scope alone; it stops exactly when an iteration does. */
  lemma {:induction false} ForJoins(eval: Eval, name: string, sep: string, body: Node, scope: Scope, i: int, upper: int)
    ensures RunFor(eval, name, sep, body, scope, i, upper) ==
            (match Iterations(eval, name, body, scope, i, upper)
             case None => Stops
             case Some(texts) => Runs(Join(texts, sep), scope))
    decreases upper + 1 - i
  {
    if i <= upper {
      ForJoins(eval, name, sep, body, scope, i + 1, upper);
      var run := RunBody(eval, body, scope.PushVariable(name, Int(i)));
      var rest := Iterations(eval, name, body, scope, i + 1, upper);
      if run.Runs? && rest.Some? {
        IterationTexts(eval, name, body, scope, i + 1, upper);
        var texts := [run.text] + rest.value;
        assert texts[1..] == rest.value;
        if i == upper {
          assert run.text + "" + "" == run.text;
        }
      }
    }
  }

  /** The meaning of a whole $for: the range was set before, and its bodies are joined. */
  lemma ForNodeJoins(eval: Eval, id: Token, sep: Option<Token>, body: Node, scope: Scope)
    ensures RunAtom(eval, ForNode(id, sep, body), scope) ==
            (match FindRange(scope.ranges, NameIn(id))
             case None => Stops
             case Some(b) =>
               (match Iterations(eval, NameIn(id), body, scope, b.lower, b.upper)
                case None => Stops
                case Some(texts) => Runs(Join(texts, if sep.Some? then sep.value.value else ""), scope)))
  {
    var found := FindRange(scope.ranges, NameIn(id));
    if found.Some? {
      ForJoins(eval, NameIn(id), if sep.Some? then sep.value.value else "", body, scope, found.value.lower, found.value.upper);
    }
  }

  // ---- only the latest binding of each name matters ----

  /** The two scopes answer every lookup alike. */
  ghost predicate SameView(s: Scope, t: Scope) {
    && (forall name :: FindVariable(s.variables, name) == FindVariable(t.variables, name))
    && (forall name :: FindRange(s.ranges, name) == FindRange(t.ranges, name))
  }

  /** Evaluation reads variables only by looking up names, as the rewritten expressions do. */
  ghost predicate ReadsByLookup(eval: Eval) {
    forall exp, v, w | (forall name :: FindVariable(v, name) == FindVariable(w, name)) ::
      eval(exp, v) == eval(exp, w)
  }

  ghost predicate Alike(r: Run, q: Run) {
    (r.Stops? <==> q.Stops?) && (r.Runs? ==> r.text == q.text && SameView(r.scope, q.scope))
  }

  lemma PushVariableAlike(s: Scope, t: Scope, name: string, value: Value)
    requires SameView(s, t)
    ensures SameView(s.PushVariable(name, value), t.PushVariable(name, value))
  {
    var binding := (name, Stored(value));
    assert ([binding] + s.variables)[1..] == s.variables && ([binding] + t.variables)[1..] == t.variables;
  }

  lemma PushRangeAlike(s: Scope, t: Scope, name: string, lower: int, upper: int)
    requires SameView(s, t)
    ensures SameView(s.PushRange(name, lower, upper), t.PushRange(name, lower, upper))
  {
    var b := Bounds(name, lower, upper);
    assert ([b] + s.ranges)[1..] == s.ranges && ([b] + t.ranges)[1..] == t.ranges;
  }

  lemma EvalAlike(eval: Eval, exp: Token, s: Scope, t: Scope)
    requires ReadsByLookup(eval) && SameView(s, t)
    ensures eval(exp, s.variables) == eval(exp, t.variables)
  {
  }

  /** Scopes with the same view give the same text and again scopes with the same view:
      shadowed bindings cannot be observed. */
  lemma {:induction false} AtomAlike(eval: Eval, node: Node, s: Scope, t: Scope)
    requires ReadsByLookup(eval) && SameView(s, t)
    ensures Alike(RunAtom(eval, node, s), RunAtom(eval, node, t))
    decreases node, 2
  {
    match node
    case VarNode(id, definition) =>
      AtomAlike(eval, definition, s, t);
      var r := RunAtom(eval, definition, s);
      if r.Runs? {
        PushVariableAlike(s, t, NameIn(id), Text(r.text));
      }
    case RangeNode(id, exp1, exp2) =>
      EvalAlike(eval, exp1, s, t);
      EvalAlike(eval, exp2, s, t);
      var lower, upper := BoundOf(eval, exp1, s), BoundOf(eval, exp2, s);
      if lower.Some? && upper.Some? {
        PushRangeAlike(s, t, NameIn(id), lower.value, upper.value);
      }
    case ForNode(id, sep, body) =>
      var found := FindRange(s.ranges, NameIn(id));
      if found.Some? {
        ForAlike(eval, NameIn(id), if sep.Some? then sep.value.value else "", body, s, t,
                 found.value.lower, found.value.upper);
      }
    case IfNode(exp, thenBranch, elseBranch) =>
      EvalAlike(eval, exp, s, t);
      BodyAlike(eval, thenBranch, s, t);
      if elseBranch.Some? {
        BodyAlike(eval, elseBranch.value, s, t);
      }
    case ExpNode(exp) => EvalAlike(eval, exp, s, t);
    case CodeNode(_) => BodyAlike(eval, node, s, t);
    case _ =>
  }

  lemma {:induction false} BodyAlike(eval: Eval, node: Node, s: Scope, t: Scope)
    requires ReadsByLookup(eval) && SameView(s, t)
    ensures Alike(RunBody(eval, node, s), RunBody(eval, node, t))
    decreases node, 1
  {
    if node.CodeNode? {
      CodeAlike(eval, node.atoms, s, t);
    }
  }

  lemma {:induction false} CodeAlike(eval: Eval, atoms: seq<Node>, s: Scope, t: Scope)
    requires ReadsByLookup(eval) && SameView(s, t)
    ensures Alike(RunAtoms(eval, atoms, s), RunAtoms(eval, atoms, t))
    decreases atoms, 0
  {
    if atoms != [] {
      AtomAlike(eval, atoms[0], s, t);
      var r, q := RunAtom(eval, atoms[0], s), RunAtom(eval, atoms[0], t);
      if r.Runs? {
        CodeAlike(eval, atoms[1..], r.scope, q.scope);
      }
    }
  }

  lemma {:induction false} ForAlike(eval: Eval, name: string, sep: string, body: Node, s: Scope, t: Scope, i: int, upper: int)
    requires ReadsByLookup(eval) && SameView(s, t)
    ensures Alike(RunFor(eval, name, sep, body, s, i, upper), RunFor(eval, name, sep, body, t, i, upper))
    decreases body, 2, upper + 1 - i
  {
    if i <= upper {
      PushVariableAlike(s, t, name, Int(i));
      BodyAlike(eval, body, s.PushVariable(name, Int(i)), t.PushVariable(name, Int(i)));
      ForAlike(eval, name, sep, body, s, t, i + 1, upper);
    }
  }

  /** A later binding of a name hides an earlier one from all code that follows. */
  lemma ShadowedBindingIsErased(eval: Eval, atoms: seq<Node>, scope: Scope, name: string, hidden: Value, value: Value)
    requires ReadsByLookup(eval)
    ensures Alike(RunAtoms(eval, atoms, scope.PushVariable(name, hidden).PushVariable(name, value)),
                  RunAtoms(eval, atoms, scope.PushVariable(name, value)))
  {
    var once, twice := scope.PushVariable(name, value), scope.PushVariable(name, hidden).PushVariable(name, value);
    assert once.variables[1..] == scope.variables;
    assert twice.variables[1..] == scope.PushVariable(name, hidden).variables;
    assert scope.PushVariable(name, hidden).variables[1..] == scope.variables;
    CodeAlike(eval, atoms, twice, once);
  }
}

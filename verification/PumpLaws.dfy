/**
  What each construct of the Pump meta-language comes to: first for syntax trees run in a
  scope, then for the tokens of whole programs and the text generated from them.
 */
module PumpLaws {
  import opened Collections
  import opened Decimals
  import opened PumpSyntax
  import opened PumpParser
  import opened PumpGrammar
  import opened PumpEvaluator
  import opened PumpConversion

  // ---- stripping white space ----

  ghost predicate AllSpace(s: string) {
    forall c | c in s :: c in " \t\n\r\U{0B}\U{0C}"
  }

  ghost predicate Trimmed(s: string) {
    s != "" ==> s[0] !in " \t\n\r\U{0B}\U{0C}" && s[|s| - 1] !in " \t\n\r\U{0B}\U{0C}"
  }

  lemma {:induction false} StripLeftExact(a: string, m: string)
    requires AllSpace(a) && (m != "" ==> m[0] !in " \t\n\r\U{0B}\U{0C}")
    ensures StripLeft(a + m) == m
  {
    if a == "" {
      assert a + m == m;
      if m != "" {
        SixSpaces(m[0]);
      }
    } else {
      assert (a + m)[0] in a && (a + m)[1..] == a[1..] + m;
      SixSpaces(a[0]);
      StripLeftExact(a[1..], m);
    }
  }

  lemma {:induction false} StripRightExact(m: string, b: string)
    requires AllSpace(b) && (m != "" ==> m[|m| - 1] !in " \t\n\r\U{0B}\U{0C}")
    ensures StripRight(m + b) == m
  {
    if b == "" {
      assert m + b == m;
      if m != "" {
        SixSpaces(m[|m| - 1]);
      }
    } else {
      var last := b[|b| - 1];
      assert last in b && (m + b)[|m + b| - 1] == last && (m + b)[..|m + b| - 1] == m + b[..|b| - 1];
      SixSpaces(last);
      StripRightExact(m, b[..|b| - 1]);
    }
  }

  /** Stripping takes away exactly the white space at both ends. */
  lemma StripExact(kind: Kind, a: string, m: string, b: string)
    requires AllSpace(a) && Trimmed(m) && AllSpace(b)
    ensures NameIn(Token(kind, a + m + b)) == m
  {
    if m == "" {
      assert a + m + b == (a + b) + "";
      StripLeftExact(a + b, "");
    } else {
      assert a + m + b == a + (m + b);
      StripLeftExact(a, m + b);
      StripRightExact(m, b);
    }
  }

  lemma {:induction false} Ends(s: string) returns (a: string, m: string, b: string)
    ensures s == a + m + b && AllSpace(a) && Trimmed(m) && AllSpace(b)
  {
    if s == "" {
      a, m, b := "", "", "";
    } else if s[0] in " \t\n\r\U{0B}\U{0C}" {
      a, m, b := Ends(s[1..]);
      a := [s[0]] + a;
      assert s == a + m + b;
    } else if s[|s| - 1] in " \t\n\r\U{0B}\U{0C}" {
      a, m, b := Ends(s[..|s| - 1]);
      b := b + [s[|s| - 1]];
      assert s == a + m + b;
    } else {
      a, m, b := "", s, "";
    }
  }

  /** A token is blank exactly if stripping leaves nothing of it. */
  lemma BlankIffNothingLeft(t: Token)
    ensures Blank(t) <==> NameIn(t) == ""
    ensures Blank(t) <==> AllSpace(t.value)
  {
    forall c
      ensures IsSpace(c) <==> c in " \t\n\r\U{0B}\U{0C}"
    {
      SixSpaces(c);
    }
    var a, m, b := Ends(t.value);
    StripExact(t.kind, a, m, b);
    assert m != "" ==> m[0] in t.value by {
      assert m != "" ==> t.value[|a|] == m[0];
    }
  }

  // ---- looking up names ----

  /** A lookup finds the binding nearest to the front. */
  lemma {:induction false} LatestVariable(v: Variables, name: string, k: nat)
    requires k <= |v| && forall j | 0 <= j < k :: v[j].0 != name
    ensures k < |v| && v[k].0 == name ==> FindVariable(v, name) == Some(v[k].1)
    ensures k == |v| ==> FindVariable(v, name) == None
  {
    if k > 0 {
      LatestVariable(v[1..], name, k - 1);
    }
  }

  lemma {:induction false} LatestRange(ranges: seq<Bounds>, name: string, k: nat)
    requires k <= |ranges| && forall j | 0 <= j < k :: ranges[j].name != name
    ensures k < |ranges| && ranges[k].name == name ==> FindRange(ranges, name) == Some(ranges[k])
    ensures k == |ranges| ==> FindRange(ranges, name) == None
  {
    if k > 0 {
      LatestRange(ranges[1..], name, k - 1);
    }
  }

  lemma PushedVariable(scope: Scope, name: string, value: Value, other: string)
    ensures FindVariable(scope.PushVariable(name, value).variables, other) ==
            if other == name then Some(Stored(value)) else FindVariable(scope.variables, other)
  {
    assert scope.PushVariable(name, value).variables[1..] == scope.variables;
  }

  lemma PushedRange(scope: Scope, name: string, lower: int, upper: int, other: string)
    ensures FindRange(scope.PushRange(name, lower, upper).ranges, other) ==
            if other == name then Some(Bounds(name, lower, upper)) else FindRange(scope.ranges, other)
  {
    assert scope.PushRange(name, lower, upper).ranges[1..] == scope.ranges;
  }

  /** An integer is shown as its numeral, with a minus sign in front if it is negative. */
  lemma IntegerShows(n: int, d: string)
    requires IsNumeral(d, if n < 0 then -n else n)
    ensures Int(n).Show() == if n < 0 then "-" + d else d
  {
    CanonicalNumeral(d);
  }

  // ---- what each node does ----

  lemma Single(eval: Eval, node: Node, scope: Scope)
    ensures RunAtoms(eval, [node], scope) == RunAtom(eval, node, scope)
  {
    var r := RunAtom(eval, node, scope);
    assert [node][1..] == [];
    if r.Runs? {
      assert RunAtoms(eval, [], r.scope) == Runs("", r.scope);
      assert r.text + "" == r.text;
    }
  }

  lemma PairRuns(eval: Eval, first: Node, second: Node, scope: Scope)
    ensures RunAtoms(eval, [first, second], scope) ==
            (var r := RunAtom(eval, first, scope);
             if r.Stops? then Stops else RunAtom(eval, second, r.scope).After(r.text))
  {
    assert [first, second] == [first] + [second];
    SequenceRuns(eval, [first], [second], scope);
    Single(eval, first, scope);
    var r := RunAtom(eval, first, scope);
    if r.Runs? {
      Single(eval, second, r.scope);
    }
  }

  /** $if runs the first branch if its condition is true, the second one, if any, if it is
      false, in a scope of its own; and it stops if the condition cannot be evaluated. */
  lemma IfRuns(eval: Eval, exp: Token, a: seq<Node>, e: Option<seq<Node>>, scope: Scope)
    ensures var r := RunAtoms(eval, [IfNode(exp, CodeNode(a), if e.Some? then Some(CodeNode(e.value)) else None)], scope);
            match eval(exp, scope.variables)
            case None => r == Stops
            case Some(v) =>
              var branch := if v.truth then a else if e.Some? then e.value else [];
              var inside := RunAtoms(eval, branch, scope);
              (r.Stops? <==> inside.Stops?) && (r.Runs? ==> r.text == inside.text && r.scope == scope)
  {
    Single(eval, IfNode(exp, CodeNode(a), if e.Some? then Some(CodeNode(e.value)) else None), scope);
  }

  /** Text is copied, a literal dollar sign is one, an expression shows its value. */
  lemma TextRuns(eval: Eval, t: Token, scope: Scope)
    ensures RunAtoms(eval, [RawCodeNode(t)], scope) == Runs(t.value, scope)
    ensures RunAtoms(eval, [LiteralDollarNode(t)], scope) == Runs("$", scope)
    ensures RunAtoms(eval, [ExpNode(t)], scope) ==
            match eval(t, scope.variables) case None => Stops case Some(v) => Runs(v.text, scope)
  {
    Single(eval, RawCodeNode(t), scope);
    Single(eval, LiteralDollarNode(t), scope);
    Single(eval, ExpNode(t), scope);
  }

  /** After $var the name stands for the text of its definition, and every other name for
      what it stood for before. */
  lemma VarBinds(eval: Eval, id: Token, definition: Node, scope: Scope)
    ensures var r, d := RunAtoms(eval, [VarNode(id, definition)], scope), RunAtoms(eval, [definition], scope);
            && (r.Stops? <==> d.Stops?)
            && (r.Runs? ==>
                  && r.text == "" && r.scope.ranges == scope.ranges
                  && (forall name ::
                        var found := FindVariable(r.scope.variables, name);
                        if name == NameIn(id) then found.Some? && found.value.Show() == d.text
                        else found == FindVariable(scope.variables, name)))
  {
    Single(eval, VarNode(id, definition), scope);
    Single(eval, definition, scope);
    var d := RunAtom(eval, definition, scope);
    if d.Runs? {
      StoredShowsSame(Text(d.text));
      forall name
        ensures FindVariable(scope.PushVariable(NameIn(id), Text(d.text)).variables, name) ==
                if name == NameIn(id) then Some(Stored(Text(d.text))) else FindVariable(scope.variables, name)
      {
        PushedVariable(scope, NameIn(id), Text(d.text), name);
      }
    }
  }

  /** After $range the name stands for the range between its two bounds. */
  lemma RangeBinds(eval: Eval, id: Token, exp1: Token, exp2: Token, scope: Scope)
    ensures var r := RunAtoms(eval, [RangeNode(id, exp1, exp2)], scope);
            var lower, upper := eval(exp1, scope.variables), eval(exp2, scope.variables);
            && (r.Runs? <==> lower.Some? && lower.value.asInt.Some? && upper.Some? && upper.value.asInt.Some?)
            && (r.Runs? ==>
                  && r.text == "" && r.scope.variables == scope.variables
                  && (forall name :: FindRange(r.scope.ranges, name) ==
                        if name == NameIn(id) then Some(Bounds(name, lower.value.asInt.value, upper.value.asInt.value))
                        else FindRange(scope.ranges, name)))
  {
    Single(eval, RangeNode(id, exp1, exp2), scope);
    var lower, upper := BoundOf(eval, exp1, scope), BoundOf(eval, exp2, scope);
    if lower.Some? && upper.Some? {
      forall name
        ensures FindRange(scope.PushRange(NameIn(id), lower.value, upper.value).ranges, name) ==
                if name == NameIn(id) then Some(Bounds(NameIn(id), lower.value, upper.value))
                else FindRange(scope.ranges, name)
      {
        PushedRange(scope, NameIn(id), lower.value, upper.value, name);
      }
    }
  }

  // ---- iterations ----

  lemma {:induction false} JoinSplits(a: seq<string>, b: seq<string>, sep: string)
    requires a != [] && b != []
    ensures Join(a + b, sep) == Join(a, sep) + sep + Join(b, sep)
  {
    assert (a + b)[1..] == a[1..] + b;
    if |a| > 1 {
      JoinSplits(a[1..], b, sep);
      assert a[0] + sep + (Join(a[1..], sep) + sep + Join(b, sep)) == a[0] + sep + Join(a[1..], sep) + sep + Join(b, sep);
    }
  }

  /** The code runs once for each value from lower to upper, and yields these texts. */
  ghost predicate YieldsTexts(eval: Eval, atoms: seq<Node>, scope: Scope, name: string, lower: int, upper: int,
                              texts: seq<string>)
  {
    && |texts| == (if upper < lower then 0 else upper - lower + 1)
    && forall k | 0 <= k < |texts| :: YieldsText(eval, atoms, scope, name, lower + k, texts[k])
  }

  ghost predicate YieldsText(eval: Eval, atoms: seq<Node>, scope: Scope, name: string, i: int, text: string) {
    var r := RunAtoms(eval, atoms, scope.PushVariable(name, Int(i)));
    r.Runs? && r.text == text
  }

  lemma {:induction false} TextsAreIterations(eval: Eval, atoms: seq<Node>, scope: Scope, name: string,
                                             lower: int, upper: int, texts: seq<string>)
    requires YieldsTexts(eval, atoms, scope, name, lower, upper, texts)
    ensures Iterations(eval, name, CodeNode(atoms), scope, lower, upper) == Some(texts)
    decreases |texts|
  {
    if lower <= upper {
      var rest := texts[1..];
      forall k | 0 <= k < |rest|
        ensures YieldsText(eval, atoms, scope, name, lower + 1 + k, rest[k])
      {
        assert YieldsText(eval, atoms, scope, name, lower + (k + 1), texts[k + 1]);
      }
      TextsAreIterations(eval, atoms, scope, name, lower + 1, upper, rest);
      assert YieldsText(eval, atoms, scope, name, lower + 0, texts[0]);
      assert texts == [texts[0]] + rest;
    }
  }

  /** $range followed by $for over the same name: the texts of the body for each value from
      the first bound to the second, joined by the separator. */
  lemma RangeThenFor(eval: Eval, id: Token, exp1: Token, exp2: Token, again: Token, sep: Option<Token>,
                     atoms: seq<Node>, scope: Scope, lower: Observed, upper: Observed, texts: seq<string>)
    requires NameIn(again) == NameIn(id)
    requires eval(exp1, scope.variables) == Some(lower) && eval(exp2, scope.variables) == Some(upper)
    requires lower.asInt.Some? && upper.asInt.Some?
    requires YieldsTexts(eval, atoms, scope.PushRange(NameIn(id), lower.asInt.value, upper.asInt.value),
                         NameIn(id), lower.asInt.value, upper.asInt.value, texts)
    ensures RunAtoms(eval, [RangeNode(id, exp1, exp2), ForNode(again, sep, CodeNode(atoms))], scope) ==
            Runs(Join(texts, if sep.Some? then sep.value.value else ""),
                 scope.PushRange(NameIn(id), lower.asInt.value, upper.asInt.value))
  {
    var name, inside := NameIn(id), scope.PushRange(NameIn(id), lower.asInt.value, upper.asInt.value);
    PairRuns(eval, RangeNode(id, exp1, exp2), ForNode(again, sep, CodeNode(atoms)), scope);
    PushedRange(scope, name, lower.asInt.value, upper.asInt.value, name);
    TextsAreIterations(eval, atoms, inside, name, lower.asInt.value, upper.asInt.value, texts);
    ForNodeJoins(eval, again, sep, CodeNode(atoms), inside);
    AfterNothing(RunAtom(eval, ForNode(again, sep, CodeNode(atoms)), inside));
  }

  /** $for over a name without a range stops the program. */
  lemma ForNeedsRange(eval: Eval, id: Token, sep: Option<Token>, atoms: seq<Node>, scope: Scope)
    requires forall b | b in scope.ranges :: b.name != NameIn(id)
    ensures RunAtoms(eval, [ForNode(id, sep, CodeNode(atoms))], scope) == Stops
  {
    LatestRange(scope.ranges, NameIn(id), |scope.ranges|);
    Single(eval, ForNode(id, sep, CodeNode(atoms)), scope);
  }

  // ---- from the tokens of a program to its text ----

  lemma OneAtom(eval: Eval, a: AtomTree)
    requires WfAtom(a) && SettledAtom(a, [])
    ensures Generated(eval, RenderAtom(a, [])) == TextOf(RunAtoms(eval, [AtomOf(a)], Scope([], [])))
  {
    ThenUnfolds(a, Nothing, []);
    assert RenderCode(Nothing, []) == [] && CodeOf(Nothing) == [] && WfCode(Nothing) && SettledCode(Nothing, []);
    assert [AtomOf(a)] + [] == [AtomOf(a)];
    GeneratedIsMeaning(eval, Then(a, Nothing), []);
  }

  /** $if EXP [[ A ]] $else [[ B ]] generates what A or B alone would, as EXP is true or false. */
  lemma GeneratedFromIfElse(eval: Eval, ifKw: Token, exp: Token, open: Token, a: CodeTree, close: Token,
                            elseKw: Token, open2: Token, b: CodeTree, close2: Token, v: Observed)
    requires ifKw.kind == If && exp.kind == Code && open.kind == Open && close.kind == Close
    requires elseKw.kind == Else && open2.kind == Open && close2.kind == Close
    requires WfCode(a) && SettledCode(a, [close]) && WfCode(b) && SettledCode(b, [close2])
    requires eval(exp, []) == Some(v)
    ensures Generated(eval, [ifKw, exp, open] + RenderCode(a, [close] + ([elseKw, open2] + RenderCode(b, [close2])))) ==
            Generated(eval, RenderCode(if v.truth then a else b, []))
  {
    var tail := ElseCode(elseKw, Bracketed(open2, b, close2));
    var node := IfThen(ifKw, exp, Bracketed(open, a, close), tail);
    ElseSpelled(elseKw, open2, b, close2);
    IfSpelled(ifKw, exp, open, a, close, tail);
    OneAtom(eval, node);
    IfRuns(eval, exp, CodeOf(a), Some(CodeOf(b)), Scope([], []));
    BranchAlone(eval, if v.truth then a else b, if v.truth then close else close2);
  }

  lemma ElseSpelled(kw: Token, open: Token, b: CodeTree, close: Token)
    requires kw.kind == Else && open.kind == Open && close.kind == Close && WfCode(b) && SettledCode(b, [close])
    ensures var tail := ElseCode(kw, Bracketed(open, b, close));
            && RenderElse(tail, []) == [kw, open] + RenderCode(b, [close])
            && WfElse(tail) && SettledElse(tail, []) && ElseOf(tail) == Some(CodeNode(CodeOf(b)))
  {
    var block := Bracketed(open, b, close);
    assert [close] + [] == [close];
    assert RenderBlock(block, []) == [open] + RenderCode(b, [close]);
    assert WfBlock(block) && SettledBlock(block, []) && BlockOf(block) == CodeNode(CodeOf(b));
  }

  lemma BranchAlone(eval: Eval, a: CodeTree, close: Token)
    requires WfCode(a) && SettledCode(a, [close])
    ensures Generated(eval, RenderCode(a, [])) == TextOf(RunAtoms(eval, CodeOf(a), Scope([], [])))
  {
    CodeSettled(a, [close], []);
    GeneratedIsMeaning(eval, a, []);
  }

  lemma ThreeInFront(a: Token, b: Token, c: Token, more: seq<Token>)
    ensures [a] + ([b] + ([c] + more)) == [a, b, c] + more
  {
  }

  lemma FourInFront(a: Token, b: Token, c: Token, d: Token, more: seq<Token>)
    ensures [a] + ([b] + ([c] + ([d] + more))) == [a, b, c, d] + more
  {
  }

  /** $if EXP [[ A ]] generates what A alone would if EXP is true, and nothing otherwise. */
  lemma GeneratedFromIf(eval: Eval, ifKw: Token, exp: Token, open: Token, a: CodeTree, close: Token, v: Observed)
    requires ifKw.kind == If && exp.kind == Code && open.kind == Open && close.kind == Close
    requires WfCode(a) && SettledCode(a, [close])
    requires eval(exp, []) == Some(v)
    ensures Generated(eval, [ifKw, exp, open] + RenderCode(a, [close])) ==
            if v.truth then Generated(eval, RenderCode(a, [])) else Some("")
  {
    assert WfElse(NoElse) && SettledElse(NoElse, []) && RenderElse(NoElse, []) == [] && ElseOf(NoElse) == None;
    assert [close] + [] == [close];
    IfSpelled(ifKw, exp, open, a, close, NoElse);
    OneAtom(eval, IfThen(ifKw, exp, Bracketed(open, a, close), NoElse));
    IfRuns(eval, exp, CodeOf(a), None, Scope([], []));
    BranchAlone(eval, a, close);
  }

  /** $if E1 [[ A ]] $elif E2 [[ B ]] $else [[ C ]] generates what A, B or C alone would: the
      first whose condition is true, and C if none is. */
  lemma GeneratedFromElif(eval: Eval, ifKw: Token, exp: Token, open: Token, a: CodeTree, close: Token,
                          elifKw: Token, exp2: Token, open2: Token, b: CodeTree, close2: Token,
                          elseKw: Token, open3: Token, c: CodeTree, close3: Token, v: Observed, w: Observed)
    requires ifKw.kind == If && exp.kind == Code && open.kind == Open && close.kind == Close
    requires elifKw.kind == Elif && exp2.kind == Code && open2.kind == Open && close2.kind == Close
    requires elseKw.kind == Else && open3.kind == Open && close3.kind == Close
    requires WfCode(a) && SettledCode(a, [close]) && WfCode(b) && SettledCode(b, [close2])
    requires WfCode(c) && SettledCode(c, [close3])
    requires eval(exp, []) == Some(v) && eval(exp2, []) == Some(w)
    ensures var third := [elseKw, open3] + RenderCode(c, [close3]);
            var second := [elifKw, exp2, open2] + RenderCode(b, [close2] + third);
            Generated(eval, [ifKw, exp, open] + RenderCode(a, [close] + second)) ==
            Generated(eval, RenderCode(if v.truth then a else if w.truth then b else c, []))
  {
    var third := [elseKw, open3] + RenderCode(c, [close3]);
    var second := [elifKw, exp2, open2] + RenderCode(b, [close2] + third);
    var tail := ElifCode(elifKw, exp2, Bracketed(open2, b, close2), ElseCode(elseKw, Bracketed(open3, c, close3)));
    var node := IfThen(ifKw, exp, Bracketed(open, a, close), tail);
    ElifSpelled(elifKw, exp2, open2, b, close2, elseKw, open3, c, close3);
    IfSpelled(ifKw, exp, open, a, close, tail);
    OneAtom(eval, node);
    var inner := IfNode(exp2, CodeNode(CodeOf(b)), Some(CodeNode(CodeOf(c))));
    IfRuns(eval, exp, CodeOf(a), Some([inner]), Scope([], []));
    IfRuns(eval, exp2, CodeOf(b), Some(CodeOf(c)), Scope([], []));
    BranchAlone(eval, if v.truth then a else if w.truth then b else c,
                if v.truth then close else if w.truth then close2 else close3);
  }

  lemma IfSpelled(kw: Token, exp: Token, open: Token, a: CodeTree, close: Token, tail: ElseTree)
    requires kw.kind == If && exp.kind == Code && open.kind == Open && close.kind == Close
    requires WfCode(a) && SettledCode(a, [close]) && WfElse(tail) && SettledElse(tail, [])
    ensures var node := IfThen(kw, exp, Bracketed(open, a, close), tail);
            && RenderAtom(node, []) == [kw, exp, open] + RenderCode(a, [close] + RenderElse(tail, []))
            && WfAtom(node) && SettledAtom(node, []) && AtomOf(node) == IfNode(exp, CodeNode(CodeOf(a)), ElseOf(tail))
  {
    var block, rest := Bracketed(open, a, close), RenderElse(tail, []);
    assert RenderBlock(block, rest) == [open] + RenderCode(a, [close] + rest);
    ThreeInFront(kw, exp, open, RenderCode(a, [close] + rest));
    CodeSettled(a, [close], [close] + rest);
    assert WfBlock(block) && SettledBlock(block, rest) && BlockOf(block) == CodeNode(CodeOf(a));
  }

  lemma ElifSpelled(kw: Token, exp: Token, open: Token, b: CodeTree, close: Token,
                    elseKw: Token, open3: Token, c: CodeTree, close3: Token)
    requires kw.kind == Elif && exp.kind == Code && open.kind == Open && close.kind == Close
    requires elseKw.kind == Else && open3.kind == Open && close3.kind == Close
    requires WfCode(b) && SettledCode(b, [close]) && WfCode(c) && SettledCode(c, [close3])
    ensures var tail := ElifCode(kw, exp, Bracketed(open, b, close), ElseCode(elseKw, Bracketed(open3, c, close3)));
            && RenderElse(tail, []) == [kw, exp, open] + RenderCode(b, [close] + ([elseKw, open3] + RenderCode(c, [close3])))
            && WfElse(tail) && SettledElse(tail, [])
            && ElseOf(tail) == Some(CodeNode([IfNode(exp, CodeNode(CodeOf(b)), Some(CodeNode(CodeOf(c))))]))
  {
    ElseSpelled(elseKw, open3, c, close3);
    var block, rest := Bracketed(open, b, close), [elseKw, open3] + RenderCode(c, [close3]);
    assert RenderBlock(block, rest) == [open] + RenderCode(b, [close] + rest);
    ThreeInFront(kw, exp, open, RenderCode(b, [close] + rest));
    CodeSettled(b, [close], [close] + rest);
    assert WfBlock(block) && SettledBlock(block, rest) && BlockOf(block) == CodeNode(CodeOf(b));
  }

  /** [[ A ]] B generates the text of A followed by that of B: A leaves nothing else behind. */
  lemma GeneratedFromBlock(eval: Eval, open: Token, a: CodeTree, close: Token, b: CodeTree, text: string)
    requires open.kind == Open && close.kind == Close
    requires WfCode(a) && SettledCode(a, [close]) && WfCode(b) && SettledCode(b, [])
    requires Generated(eval, RenderCode(a, [])) == Some(text)
    ensures Generated(eval, [open] + RenderCode(a, [close] + RenderCode(b, []))) ==
            match Generated(eval, RenderCode(b, [])) case None => None case Some(more) => Some(text + more)
  {
    var scope, rest, block := Scope([], []), RenderCode(b, []), Bracketed(open, a, close);
    assert SettledBlock(block, rest) by {
      CodeSettled(a, [close], [close] + rest);
    }
    var node := CodeNode(CodeOf(a));
    assert Generated(eval, RenderBlock(block, rest)) == TextOf(RunAtoms(eval, [node] + CodeOf(b), scope)) by {
      ThenUnfolds(Nested(block), b, []);
      GeneratedIsMeaning(eval, Then(Nested(block), b), []);
    }
    GeneratedIsMeaning(eval, b, []);
    BranchAlone(eval, a, close);
    SequenceRuns(eval, [node], CodeOf(b), scope);
    Single(eval, node, scope);
    assert RunAtom(eval, node, scope) == RunBody(eval, node, scope) == Runs(text, scope);
  }

  /** The shortest programs: a text, a dollar sign, $NAME and $(EXP). */
  lemma GeneratedFromOneToken(eval: Eval, text: Token, dollar: Token, name: string, open: Token, exp: Token)
    requires text.kind == Code && dollar.kind == LiteralDollar && open.kind == Dollar && exp.kind == Exp
    ensures Generated(eval, [text]) == Some(text.value)
    ensures Generated(eval, [dollar]) == Some("$")
    ensures Generated(eval, [Token(IdRef, "$" + name)]) ==
            match eval(Token(Identifier, name), []) case None => None case Some(v) => Some(v.text)
    ensures Generated(eval, [open, exp]) == match eval(exp, []) case None => None case Some(v) => Some(v.text)
  {
    var scope, named := Scope([], []), Token(IdRef, "$" + name);
    assert NameOf(named) == Token(Identifier, name);
    OneAtom(eval, RawText(text));
    OneAtom(eval, DollarSign(dollar));
    OneAtom(eval, Reference(named));
    OneAtom(eval, Expression(open, exp));
    assert [open] + ([exp] + []) == [open, exp] && [text] + [] == [text] && [dollar] + [] == [dollar] && [named] + [] == [named];
    TextRuns(eval, text, scope);
    TextRuns(eval, dollar, scope);
    TextRuns(eval, NameOf(named), scope);
    TextRuns(eval, exp, scope);
  }

  /** $var ID = [[ A ]] B generates what B does where ID stands for the text of A. */
  lemma GeneratedFromVar(eval: Eval, varKw: Token, id: Token, eq: Token, open: Token, a: CodeTree, close: Token,
                         b: CodeTree, text: string)
    requires varKw.kind == Var && id.kind == Identifier && eq.kind == Equals && open.kind == Open && close.kind == Close
    requires WfCode(a) && SettledCode(a, [close]) && WfCode(b) && SettledCode(b, [])
    requires Generated(eval, RenderCode(a, [])) == Some(text)
    ensures Generated(eval, [varKw, id, eq, open] + RenderCode(a, [close] + RenderCode(b, []))) ==
            TextOf(RunAtoms(eval, CodeOf(b), Scope([(NameIn(id), Stored(Text(text)))], [])))
  {
    var rest := RenderCode(b, []);
    var block := Bracketed(open, a, close);
    var node := VarToCode(varKw, id, eq, block);
    assert RenderAtom(node, rest) == [varKw, id, eq, open] + RenderCode(a, [close] + rest) by {
      assert RenderBlock(block, rest) == [open] + RenderCode(a, [close] + rest);
      FourInFront(varKw, id, eq, open, RenderCode(a, [close] + rest));
    }
    assert SettledBlock(block, rest) by {
      CodeSettled(a, [close], [close] + rest);
    }
    assert RunAtom(eval, CodeNode(CodeOf(a)), Scope([], [])) == Runs(text, Scope([], [])) by {
      BranchAlone(eval, a, close);
      assert RunAtom(eval, CodeNode(CodeOf(a)), Scope([], [])) == RunBody(eval, CodeNode(CodeOf(a)), Scope([], []));
    }
    DefinedFirst(eval, node, id, CodeNode(CodeOf(a)), b, text);
  }

  /** $var ID = EXP B generates what B does where ID stands for the value of EXP. */
  lemma GeneratedFromVarExp(eval: Eval, varKw: Token, id: Token, eq: Token, exp: Token, b: CodeTree, v: Observed)
    requires varKw.kind == Var && id.kind == Identifier && eq.kind == Equals && exp.kind == Exp
    requires WfCode(b) && SettledCode(b, []) && eval(exp, []) == Some(v)
    ensures Generated(eval, [varKw, id, eq, exp] + RenderCode(b, [])) ==
            TextOf(RunAtoms(eval, CodeOf(b), Scope([(NameIn(id), Stored(Text(v.text)))], [])))
  {
    var node := VarToExp(varKw, id, eq, exp);
    assert RenderAtom(node, RenderCode(b, [])) == [varKw, id, eq, exp] + RenderCode(b, []);
    DefinedFirst(eval, node, id, ExpNode(exp), b, v.text);
  }

  lemma Defined(eval: Eval, id: Token, definition: Node, b: seq<Node>, scope: Scope)
    requires RunAtom(eval, definition, scope).Runs?
    ensures var text := RunAtom(eval, definition, scope).text;
            TextOf(RunAtoms(eval, [VarNode(id, definition)] + b, scope)) ==
            TextOf(RunAtoms(eval, b, Scope([(NameIn(id), Stored(Text(text)))] + scope.variables, scope.ranges)))
  {
    SequenceRuns(eval, [VarNode(id, definition)], b, scope);
    Single(eval, VarNode(id, definition), scope);
    var next := scope.PushVariable(NameIn(id), Text(RunAtom(eval, definition, scope).text));
    assert RunAtom(eval, VarNode(id, definition), scope) == Runs("", next);
    AfterNothing(RunAtoms(eval, b, next));
  }

  lemma DefinedFirst(eval: Eval, node: AtomTree, id: Token, definition: Node, b: CodeTree, text: string)
    requires WfAtom(node) && SettledAtom(node, RenderCode(b, [])) && AtomOf(node) == VarNode(id, definition)
    requires WfCode(b) && SettledCode(b, []) && RunAtom(eval, definition, Scope([], [])) == Runs(text, Scope([], []))
    ensures Generated(eval, RenderAtom(node, RenderCode(b, []))) ==
            TextOf(RunAtoms(eval, CodeOf(b), Scope([(NameIn(id), Stored(Text(text)))], [])))
  {
    var scope, binding := Scope([], []), (NameIn(id), Stored(Text(text)));
    assert Generated(eval, RenderAtom(node, RenderCode(b, []))) ==
           TextOf(RunAtoms(eval, [VarNode(id, definition)] + CodeOf(b), scope)) by {
      ThenUnfolds(node, b, []);
      GeneratedIsMeaning(eval, Then(node, b), []);
    }
    Defined(eval, id, definition, CodeOf(b), scope);
    assert [binding] + scope.variables == [binding];
  }

  /** $range ID LOW..HIGH $for ID SEP [[ A ]] generates the texts of A for LOW to HIGH with
      SEP between them. */
  lemma GeneratedFromRangeFor(eval: Eval, rangeKw: Token, id: Token, low: Token, dots: Token, high: Token,
                              forKw: Token, again: Token, sep: Option<Token>, open: Token, a: CodeTree, close: Token,
                              lower: Observed, upper: Observed, texts: seq<string>)
    requires rangeKw.kind == Range && id.kind == Identifier && low.kind == Exp && dots.kind == DotDot && high.kind == Exp
    requires forKw.kind == For && again.kind == Identifier && NameIn(again) == NameIn(id)
    requires sep.Some? ==> sep.value.kind == Code
    requires open.kind == Open && close.kind == Close && WfCode(a) && SettledCode(a, [close])
    requires eval(low, []) == Some(lower) && eval(high, []) == Some(upper) && lower.asInt.Some? && upper.asInt.Some?
    requires YieldsTexts(eval, CodeOf(a), Scope([], [Bounds(NameIn(id), lower.asInt.value, upper.asInt.value)]),
                         NameIn(id), lower.asInt.value, upper.asInt.value, texts)
    ensures Generated(eval, [rangeKw, id, low, dots, high] +
                            ([forKw, again] + if sep.Some? then [sep.value, open] + RenderCode(a, [close])
                                              else [open] + RenderCode(a, [close]))) ==
            Some(Join(texts, if sep.Some? then sep.value.value else ""))
  {
    var first, second := RangeOf(rangeKw, id, low, dots, high), ForEach(forKw, again, sep, Bracketed(open, a, close));
    var scope, bounds := Scope([], []), Bounds(NameIn(id), lower.asInt.value, upper.asInt.value);
    ForSpelled(forKw, again, sep, open, a, close);
    RangeSpelled(rangeKw, id, low, dots, high, RenderAtom(second, []));
    TwoAtoms(eval, first, second);
    assert scope.PushRange(NameIn(id), bounds.lower, bounds.upper) == Scope([], [bounds]) by {
      assert [bounds] + [] == [bounds];
    }
    RangeThenFor(eval, id, low, high, again, sep, CodeOf(a), scope, lower, upper, texts);
  }

  lemma ForSpelled(kw: Token, id: Token, sep: Option<Token>, open: Token, a: CodeTree, close: Token)
    requires kw.kind == For && id.kind == Identifier && (sep.Some? ==> sep.value.kind == Code)
    requires open.kind == Open && close.kind == Close && WfCode(a) && SettledCode(a, [close])
    ensures var node := ForEach(kw, id, sep, Bracketed(open, a, close));
            && RenderAtom(node, []) == [kw, id] + (if sep.Some? then [sep.value, open] + RenderCode(a, [close])
                                                   else [open] + RenderCode(a, [close]))
            && WfAtom(node) && SettledAtom(node, []) && AtomOf(node) == ForNode(id, sep, CodeNode(CodeOf(a)))
  {
    var block, body := Bracketed(open, a, close), [open] + RenderCode(a, [close]);
    assert [close] + [] == [close];
    assert RenderBlock(block, []) == body;
    if sep.Some? {
      assert [sep.value] + body == [sep.value, open] + RenderCode(a, [close]);
    }
    assert WfBlock(block) && SettledBlock(block, []) && BlockOf(block) == CodeNode(CodeOf(a));
  }

  lemma RangeSpelled(kw: Token, id: Token, low: Token, dots: Token, high: Token, more: seq<Token>)
    ensures RenderAtom(RangeOf(kw, id, low, dots, high), more) == [kw, id, low, dots, high] + more
  {
  }

  lemma TwoAtoms(eval: Eval, first: AtomTree, second: AtomTree)
    requires WfAtom(first) && WfAtom(second)
    requires SettledAtom(first, RenderAtom(second, [])) && SettledAtom(second, [])
    ensures Generated(eval, RenderAtom(first, RenderAtom(second, []))) ==
            TextOf(RunAtoms(eval, [AtomOf(first), AtomOf(second)], Scope([], [])))
  {
    assert RenderCode(Nothing, []) == [] && CodeOf(Nothing) == [] && WfCode(Nothing) && SettledCode(Nothing, []);
    ThenUnfolds(second, Nothing, []);
    ThenUnfolds(first, Then(second, Nothing), []);
    assert CodeOf(Then(first, Then(second, Nothing))) == [AtomOf(first), AtomOf(second)] by {
      TwoInFront(AtomOf(first), AtomOf(second), []);
      assert [AtomOf(first), AtomOf(second)] + [] == [AtomOf(first), AtomOf(second)];
    }
    GeneratedIsMeaning(eval, Then(first, Then(second, Nothing)), []);
  }
}

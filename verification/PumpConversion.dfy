/** The conversion of a Pump source: parse its tokens, then run the tree in an empty environment. */
module PumpConversion {
  import opened Collections
  import opened PumpSyntax
  import opened PumpParser
  import opened PumpGrammar
  import opened PumpEvaluator

  /** The text generated from the tokens, or None when the program stops with an error. */
  function Generated(eval: Eval, ts: seq<Token>): Option<string> {
    match ParseCode(ts)
    case Failed => None
    case Parsed(atoms, _) => TextOf(RunAtoms(eval, atoms, Scope([], [])))
  }

  function TextOf(r: Run): Option<string> {
    if r.Stops? then None else Some(r.text)
  }

  method ConvertFromTokens(eval: Eval, ts: seq<Token>) returns (r: Option<string>)
    ensures r == Generated(eval, ts)
  {
    var tokens := new TokenList(ts);
    var ast := tokens.ParseCodeNode();
    if ast.Exited? {
      return None;
    }
    var output := new Output();
    var env := new Env(Scope([], []));
    var ok := RunCode(eval, env, ast.value, output);
    if !ok {
      return None;
    }
    ghost var run := RunAtoms(eval, ParseCode(ts).value, Scope([], []));
    assert output.text == "" + run.text == run.text;
    return Some(output.text);
  }

  /** The generated text is the meaning of the tree that the source spells. */
  lemma GeneratedIsMeaning(eval: Eval, c: CodeTree, k: seq<Token>)
    requires WfCode(c) && SettledCode(c, k) && EndsCode(k)
    ensures Generated(eval, RenderCode(c, k)) == TextOf(RunAtoms(eval, CodeOf(c), Scope([], [])))
  {
    CodeComplete(c, k);
  }

  /** Nothing after the first token that code cannot go on with, such as an unmatched ]],
      has any effect: the rest of the source is dropped without an error. */
  lemma RestOfSourceIgnored(eval: Eval, c: CodeTree, k: seq<Token>)
    requires WfCode(c) && SettledCode(c, k) && EndsCode(k)
    ensures Generated(eval, RenderCode(c, k)) == Generated(eval, RenderCode(c, []))
  {
    CodeSettled(c, k, []);
    GeneratedIsMeaning(eval, c, k);
    GeneratedIsMeaning(eval, c, []);
  }
}

/**
  The recursive-descent parser of the Pump meta-language: first as functions from a token
  sequence to a result and the remaining tokens, then as methods that consume a token list
  in place. Failure stands for the program ending with an error.
 */
module PumpParser {
  import opened Collections
  import opened PumpSyntax

  datatype Parse<+T> = Failed | Parsed(value: T, rest: seq<Token>) {
    predicate IsFailure() { Failed? }

    function PropagateFailure<U>(): Parse<U>
      requires Failed?
    {
      Failed
    }

    function Extract(): (T, seq<Token>)
      requires Parsed?
    {
      (value, rest)
    }
  }

  function Pop(kind: Kind, ts: seq<Token>): (r: Parse<Token>)
    ensures r.Parsed? ==> |r.rest| == |ts| - 1
  {
    if ts == [] || ts[0].kind != kind then Failed else Parsed(ts[0], ts[1..])
  }

  /** A bracketed piece of code. */
  function ParseBlock(ts: seq<Token>): (r: Parse<Node>)
    ensures r.Parsed? ==> |r.rest| < |ts|
    decreases |ts|, 0
  {
    var (_, ts1) :- Pop(Open, ts);
    var (atoms, ts2) :- ParseCode(ts1);
    var (_, ts3) :- Pop(Close, ts2);
    Parsed(CodeNode(atoms), ts3)
  }

  function ParseElse(ts: seq<Token>): (r: Parse<Option<Node>>)
    ensures r.Parsed? ==> |r.rest| <= |ts|
    decreases |ts|, 0
  {
    if ts == [] then Parsed(None, ts)
    else if ts[0].kind == Else then
      var (block, ts1) :- ParseBlock(ts[1..]);
      Parsed(Some(block), ts1)
    else if ts[0].kind == Elif then
      var (exp, ts1) :- Pop(Code, ts[1..]);
      var (block, ts2) :- ParseBlock(ts1);
      var (inner, ts3) :- ParseElse(ts2);
      Parsed(Some(CodeNode([IfNode(exp, block, inner)])), ts3)
    else if Blank(ts[0]) then
      var (_, ts1) :- Pop(Code, ts);
      ParseElse(ts1)
    else Parsed(None, ts)
  }

  /** What follows $var. */
  function ParseVar(ts: seq<Token>): (r: Parse<Node>)
    ensures r.Parsed? ==> |r.rest| < |ts|
    decreases |ts|, 1
  {
    var (id, ts1) :- Pop(Identifier, ts);
    var (_, ts2) :- Pop(Equals, ts1);
    if ts2 == [] then Failed
    else if ts2[0].kind == Exp then Parsed(VarNode(id, ExpNode(ts2[0])), ts2[1..])
    else
      var (block, ts3) :- ParseBlock(ts2);
      Parsed(VarNode(id, block), ts3)
  }

  /** What follows $for. */
  function ParseFor(ts: seq<Token>): (r: Parse<Node>)
    ensures r.Parsed? ==> |r.rest| < |ts|
    decreases |ts|, 1
  {
    var (id, ts1) :- Pop(Identifier, ts);
    if ts1 == [] then Failed
    else
      var sep := if ts1[0].kind == Code then Some(ts1[0]) else None;
      var (block, ts2) :- ParseBlock(if sep.Some? then ts1[1..] else ts1);
      Parsed(ForNode(id, sep, block), ts2)
  }

  /** What follows $if. */
  function ParseIf(ts: seq<Token>): (r: Parse<Node>)
    ensures r.Parsed? ==> |r.rest| < |ts|
    decreases |ts|, 1
  {
    var (exp, ts1) :- Pop(Code, ts);
    var (block, ts2) :- ParseBlock(ts1);
    var (elseNode, ts3) :- ParseElse(ts2);
    Parsed(IfNode(exp, block, elseNode), ts3)
  }

  /** What follows $range. */
  function ParseRange(ts: seq<Token>): (r: Parse<Node>)
    ensures r.Parsed? ==> |r.rest| < |ts|
  {
    var (id, ts1) :- Pop(Identifier, ts);
    var (exp1, ts2) :- Pop(Exp, ts1);
    var (_, ts3) :- Pop(DotDot, ts2);
    var (exp2, ts4) :- Pop(Exp, ts3);
    Parsed(RangeNode(id, exp1, exp2), ts4)
  }

  /** One atomic piece of code, or None with nothing consumed. */
  function ParseAtomic(ts: seq<Token>): (r: Parse<Option<Node>>)
    requires ts != []
    ensures r.Parsed? && r.value.Some? ==> |r.rest| < |ts|
    ensures r.Parsed? && r.value.None? ==> r.rest == ts
    decreases |ts|, 1
  {
    var head, ts0 := ts[0], ts[1..];
    match head.kind
    case Code => Parsed(Some(RawCodeNode(head)), ts0)
    case Var => Made(ParseVar(ts0))
    case For => Made(ParseFor(ts0))
    case If => Made(ParseIf(ts0))
    case Range => Made(ParseRange(ts0))
    case IdRef => Parsed(Some(ExpNode(NameOf(head))), ts0)
    case LiteralDollar => Parsed(Some(LiteralDollarNode(head)), ts0)
    case Dollar =>
      var (exp, ts1) :- Pop(Exp, ts0);
      Parsed(Some(ExpNode(exp)), ts1)
    case Open => Made(ParseBlock(ts))
    case _ => Parsed(None, ts)
  }

  function Made(p: Parse<Node>): Parse<Option<Node>> {
    if p.Failed? then Failed else Parsed(Some(p.value), p.rest)
  }

  function ParseCode(ts: seq<Token>): (r: Parse<seq<Node>>)
    ensures r.Parsed? ==> |r.rest| <= |ts|
    decreases |ts|, 2
  {
    if ts == [] then Parsed([], ts)
    else
      var (atom, ts1) :- ParseAtomic(ts);
      if atom.None? then Parsed([], ts)
      else
        var (atoms, ts2) :- ParseCode(ts1);
        Parsed([atom.value] + atoms, ts2)
  }

  // ---- the parser over a token list changed in place ----

  /** The result of a procedure that may end the program instead of returning. */
  datatype Exit<+T> = Exited | Returned(value: T) {
    predicate IsFailure() { Exited? }

    function PropagateFailure<U>(): Exit<U>
      requires Exited?
    {
      Exited
    }

    function Extract(): T
      requires Returned?
    {
      value
    }
  }

  /** A procedure that left `tokens` behind did what the function p says. */
  ghost predicate Agrees<T>(r: Exit<T>, tokens: seq<Token>, p: Parse<T>) {
    && (r.Returned? <==> p.Parsed?)
    && (r.Returned? ==> r.value == p.value && tokens == p.rest)
  }

  function Prefixed(atoms: seq<Node>, p: Parse<seq<Node>>): Parse<seq<Node>> {
    if p.Failed? then Failed else Parsed(atoms + p.value, p.rest)
  }

  class TokenList {
    var tokens: seq<Token>

    constructor (tokens: seq<Token>)
      ensures this.tokens == tokens
    {
      this.tokens := tokens;
    }

    method PopFront() returns (r: Exit<Token>)
      modifies this
      ensures r.Returned? <==> old(tokens) != []
      ensures r.Returned? ==> r.value == old(tokens)[0] && tokens == old(tokens)[1..]
    {
      if tokens == [] {
        return Exited;
      }
      r := Returned(tokens[0]);
      tokens := tokens[1..];
    }

    method PushFront(elem: Token)
      modifies this
      ensures tokens == [elem] + old(tokens)
    {
      tokens := [elem] + tokens;
    }

    method PopToken(kind: Kind) returns (r: Exit<Token>)
      modifies this
      ensures Agrees(r, tokens, Pop(kind, old(tokens)))
    {
      var token :- PopFront();
      if token.kind != kind {
        return Exited;
      }
      return Returned(token);
    }

    method PeekToken() returns (r: Option<Token>)
      ensures r == if tokens == [] then None else Some(tokens[0])
    {
      return if tokens == [] then None else Some(tokens[0]);
    }

    method ParseBracketed() returns (r: Exit<Node>)
      modifies this
      ensures Agrees(r, tokens, ParseBlock(old(tokens)))
      decreases |tokens|, 0
    {
      var _ :- PopToken(Open);
      var node :- ParseCodeNode();
      var _ :- PopToken(Close);
      return Returned(node);
    }

    method ParseElseNode() returns (r: Exit<Option<Node>>)
      modifies this
      ensures Agrees(r, tokens, ParseElse(old(tokens)))
      decreases |tokens|, 0
    {
      var next := PeekToken();
      if next.None? {
        return Returned(None);
      }
      if next.value.kind == Else {
        var _ := PopToken(Else);
        var node :- ParseBracketed();
        return Returned(Some(node));
      } else if next.value.kind == Elif {
        var _ := PopToken(Elif);
        var exp :- PopToken(Code);
        var node :- ParseBracketed();
        var inner :- ParseElseNode();
        return Returned(Some(CodeNode([IfNode(exp, node, inner)])));
      } else if Blank(next.value) {
        var _ :- PopToken(Code);
        r := ParseElseNode();
      } else {
        return Returned(None);
      }
    }

    method ParseAtomicCodeNode() returns (r: Exit<Option<Node>>)
      requires tokens != []
      modifies this
      ensures Agrees(r, tokens, ParseAtomic(old(tokens)))
      decreases |tokens|, 1
    {
      ghost var ts := tokens;
      var popped := PopFront();
      var head := popped.value;
      match head.kind {
        case Code => return Returned(Some(RawCodeNode(head)));
        case Var =>
          var id :- PopToken(Identifier);
          var _ :- PopToken(Equals);
          var next := PeekToken();
          if next.None? {
            return Exited;
          }
          if next.value.kind == Exp {
            var exp := PopFront();
            return Returned(Some(VarNode(id, ExpNode(exp.value))));
          }
          var node :- ParseBracketed();
          return Returned(Some(VarNode(id, node)));
        case For =>
          var id :- PopToken(Identifier);
          var next := PeekToken();
          if next.None? {
            return Exited;
          }
          var sep := None;
          if next.value.kind == Code {
            sep := next;
            var _ := PopToken(Code);
          }
          var node :- ParseBracketed();
          return Returned(Some(ForNode(id, sep, node)));
        case If =>
          var exp :- PopToken(Code);
          var node :- ParseBracketed();
          var elseNode :- ParseElseNode();
          return Returned(Some(IfNode(exp, node, elseNode)));
        case Range =>
          var id :- PopToken(Identifier);
          var exp1 :- PopToken(Exp);
          var _ :- PopToken(DotDot);
          var exp2 :- PopToken(Exp);
          return Returned(Some(RangeNode(id, exp1, exp2)));
        case IdRef => return Returned(Some(ExpNode(NameOf(head))));
        case LiteralDollar => return Returned(Some(LiteralDollarNode(head)));
        case Dollar =>
          var exp :- PopToken(Exp);
          return Returned(Some(ExpNode(exp)));
        case Open =>
          var node :- ParseCodeNode();
          var _ :- PopToken(Close);
          return Returned(Some(node));
        case _ =>
          PushFront(head);
          assert tokens == ts;
          return Returned(None);
      }
    }

    method ParseCodeNode() returns (r: Exit<Node>)
      modifies this
      ensures r.Returned? <==> ParseCode(old(tokens)).Parsed?
      ensures r.Returned? ==> r.value == CodeNode(ParseCode(old(tokens)).value) && tokens == ParseCode(old(tokens)).rest
      decreases |tokens|, 2
    {
      ghost var ts := tokens;
      var atoms: seq<Node> := [];
      assert ParseCode(ts).Parsed? ==> [] + ParseCode(ts).value == ParseCode(ts).value;
      while true
        invariant |tokens| <= |ts|
        invariant Prefixed(atoms, ParseCode(tokens)) == ParseCode(ts)
        decreases |tokens|
      {
        ghost var now, was := tokens, atoms;
        if tokens == [] {
          break;
        }
        var atom :- ParseAtomicCodeNode();
        if atom.None? {
          break;
        }
        atoms := atoms + [atom.value];
        assert ParseCode(now).Parsed? ==> was + ParseCode(now).value == atoms + ParseCode(tokens).value;
      }
      return Returned(CodeNode(atoms));
    }
  }
}

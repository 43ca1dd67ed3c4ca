/**
  The grammar of the Pump meta-language as concrete syntax trees, and the proof that the
  parser accepts exactly the renderings of those trees and builds their abstract trees.
 */
module PumpGrammar {
  import opened Collections
  import opened PumpSyntax
  import opened PumpParser

  // ---- concrete syntax ----

  datatype CodeTree = Nothing | Then(first: AtomTree, more: CodeTree)

  datatype BlockTree = Bracketed(open: Token, code: CodeTree, close: Token)

  datatype AtomTree =
    | RawText(text: Token)
    | VarToExp(kw: Token, id: Token, eq: Token, exp: Token)
    | VarToCode(kw: Token, id: Token, eq: Token, block: BlockTree)
    | RangeOf(kw: Token, id: Token, exp1: Token, dots: Token, exp2: Token)
    | ForEach(kw: Token, id: Token, sep: Option<Token>, block: BlockTree)
    | IfThen(kw: Token, exp: Token, block: BlockTree, tail: ElseTree)
    | Reference(name: Token)
    | DollarSign(name: Token)
    | Expression(kw: Token, exp: Token)
    | Nested(block: BlockTree)

  /** The else part of an $if; blank code tokens before it are not significant. */
  datatype ElseTree =
    | NoElse
    | Spaced(blank: Token, tail: ElseTree)
    | ElseCode(kw: Token, block: BlockTree)
    | ElifCode(kw: Token, exp: Token, block: BlockTree, tail: ElseTree)

  ghost predicate WfCode(c: CodeTree) {
    match c
    case Nothing => true
    case Then(a, more) => WfAtom(a) && WfCode(more)
  }

  ghost predicate WfBlock(b: BlockTree) {
    b.open.kind == Open && WfCode(b.code) && b.close.kind == Close
  }

  ghost predicate WfAtom(a: AtomTree) {
    match a
    case RawText(t) => t.kind == Code
    case VarToExp(kw, id, eq, exp) =>
      kw.kind == Var && id.kind == Identifier && eq.kind == Equals && exp.kind == Exp
    case VarToCode(kw, id, eq, b) =>
      kw.kind == Var && id.kind == Identifier && eq.kind == Equals && WfBlock(b)
    case RangeOf(kw, id, exp1, dots, exp2) =>
      kw.kind == Range && id.kind == Identifier && exp1.kind == Exp && dots.kind == DotDot && exp2.kind == Exp
    case ForEach(kw, id, sep, b) =>
      kw.kind == For && id.kind == Identifier && (sep.Some? ==> sep.value.kind == Code) && WfBlock(b)
    case IfThen(kw, exp, b, tail) => kw.kind == If && exp.kind == Code && WfBlock(b) && WfElse(tail)
    case Reference(t) => t.kind == IdRef
    case DollarSign(t) => t.kind == LiteralDollar
    case Expression(kw, exp) => kw.kind == Dollar && exp.kind == Exp
    case Nested(b) => WfBlock(b)
  }

  ghost predicate WfElse(e: ElseTree) {
    match e
    case NoElse => true
    case Spaced(t, tail) => t.kind == Code && Blank(t) && WfElse(tail)
    case ElseCode(kw, b) => kw.kind == Else && WfBlock(b)
    case ElifCode(kw, exp, b, tail) => kw.kind == Elif && exp.kind == Code && WfBlock(b) && WfElse(tail)
  }

  // ---- the tokens of a tree, followed by k ----

  ghost function RenderCode(c: CodeTree, k: seq<Token>): seq<Token> {
    match c
    case Nothing => k
    case Then(a, more) => RenderAtom(a, RenderCode(more, k))
  }

  ghost function RenderBlock(b: BlockTree, k: seq<Token>): seq<Token> {
    [b.open] + RenderCode(b.code, [b.close] + k)
  }

  ghost function RenderAtom(a: AtomTree, k: seq<Token>): seq<Token> {
    match a
    case RawText(t) => [t] + k
    case VarToExp(kw, id, eq, exp) => [kw] + ([id] + ([eq] + ([exp] + k)))
    case VarToCode(kw, id, eq, b) => [kw] + ([id] + ([eq] + RenderBlock(b, k)))
    case RangeOf(kw, id, exp1, dots, exp2) => [kw] + ([id] + ([exp1] + ([dots] + ([exp2] + k))))
    case ForEach(kw, id, sep, b) =>
      [kw] + ([id] + if sep.Some? then [sep.value] + RenderBlock(b, k) else RenderBlock(b, k))
    case IfThen(kw, exp, b, tail) => [kw] + ([exp] + RenderBlock(b, RenderElse(tail, k)))
    case Reference(t) => [t] + k
    case DollarSign(t) => [t] + k
    case Expression(kw, exp) => [kw] + ([exp] + k)
    case Nested(b) => RenderBlock(b, k)
  }

  ghost function RenderElse(e: ElseTree, k: seq<Token>): seq<Token> {
    match e
    case NoElse => k
    case Spaced(t, tail) => [t] + RenderElse(tail, k)
    case ElseCode(kw, b) => [kw] + RenderBlock(b, k)
    case ElifCode(kw, exp, b, tail) => [kw] + ([exp] + RenderBlock(b, RenderElse(tail, k)))
  }

  // ---- the abstract tree of a concrete one ----

  ghost function CodeOf(c: CodeTree): seq<Node> {
    match c
    case Nothing => []
    case Then(a, more) => [AtomOf(a)] + CodeOf(more)
  }

  ghost function BlockOf(b: BlockTree): Node { CodeNode(CodeOf(b.code)) }

  ghost function AtomOf(a: AtomTree): Node {
    match a
    case RawText(t) => RawCodeNode(t)
    case VarToExp(_, id, _, exp) => VarNode(id, ExpNode(exp))
    case VarToCode(_, id, _, b) => VarNode(id, BlockOf(b))
    case RangeOf(_, id, exp1, _, exp2) => RangeNode(id, exp1, exp2)
    case ForEach(_, id, sep, b) => ForNode(id, sep, BlockOf(b))
    case IfThen(_, exp, b, tail) => IfNode(exp, BlockOf(b), ElseOf(tail))
    case Reference(t) => ExpNode(NameOf(t))
    case DollarSign(t) => LiteralDollarNode(t)
    case Expression(_, exp) => ExpNode(exp)
    case Nested(b) => BlockOf(b)
  }

  ghost function ElseOf(e: ElseTree): Option<Node> {
    match e
    case NoElse => None
    case Spaced(_, tail) => ElseOf(tail)
    case ElseCode(_, b) => Some(BlockOf(b))
    case ElifCode(_, exp, b, tail) => Some(CodeNode([IfNode(exp, BlockOf(b), ElseOf(tail))]))
  }

  // ---- where pieces of code may end ----

  /** No piece of code can go on with k: it is empty or starts with a token like ]]. */
  ghost predicate EndsCode(k: seq<Token>) {
    k == [] || k[0].kind in {Elif, Else, Close, Identifier, Equals, Exp, DotDot}
  }

  /** An $if without an else part ends before k: nothing there continues it, and no blank
      token is there to be taken for space before an else part. */
  ghost predicate EndsIf(k: seq<Token>) {
    k == [] || (k[0].kind != Else && k[0].kind != Elif && !Blank(k[0]))
  }

  /** Every $if inside ends where it should when the tree is followed by k. */
  ghost predicate SettledCode(c: CodeTree, k: seq<Token>) {
    match c
    case Nothing => true
    case Then(a, more) => SettledAtom(a, RenderCode(more, k)) && SettledCode(more, k)
  }

  ghost predicate SettledBlock(b: BlockTree, k: seq<Token>) {
    SettledCode(b.code, [b.close] + k)
  }

  ghost predicate SettledAtom(a: AtomTree, k: seq<Token>) {
    match a
    case VarToCode(_, _, _, b) => SettledBlock(b, k)
    case ForEach(_, _, _, b) => SettledBlock(b, k)
    case IfThen(_, _, b, tail) => SettledBlock(b, RenderElse(tail, k)) && SettledElse(tail, k)
    case Nested(b) => SettledBlock(b, k)
    case _ => true
  }

  ghost predicate SettledElse(e: ElseTree, k: seq<Token>) {
    match e
    case NoElse => EndsIf(k)
    case Spaced(_, tail) => SettledElse(tail, k)
    case ElseCode(_, b) => SettledBlock(b, k)
    case ElifCode(_, _, b, tail) => SettledBlock(b, RenderElse(tail, k)) && SettledElse(tail, k)
  }

  // ---- only the next token decides whether a piece has ended ----

  ghost predicate SameHead(j: seq<Token>, k: seq<Token>) {
    (j == [] <==> k == []) && (j != [] ==> j[0] == k[0])
  }

  lemma AtomHead(a: AtomTree, j: seq<Token>, k: seq<Token>)
    ensures SameHead(RenderAtom(a, j), RenderAtom(a, k))
  {
  }

  lemma {:induction false} CodeSettled(c: CodeTree, j: seq<Token>, k: seq<Token>)
    requires SettledCode(c, j) && (EndsIf(k) || SameHead(j, k))
    ensures SettledCode(c, k)
    decreases c
  {
    if c.Then? {
      if c.more.Then? {
        AtomHead(c.more.first, RenderCode(c.more.more, j), RenderCode(c.more.more, k));
      }
      AtomSettled(c.first, RenderCode(c.more, j), RenderCode(c.more, k));
      CodeSettled(c.more, j, k);
    }
  }

  /** Whatever follows the closing bracket has no influence on the code inside. */
  lemma {:induction false} BlockSettledAnywhere(b: BlockTree, j: seq<Token>, k: seq<Token>)
    requires SettledBlock(b, j)
    ensures SettledBlock(b, k)
    decreases b
  {
    CodeSettled(b.code, [b.close] + j, [b.close] + k);
  }

  lemma {:induction false} AtomSettled(a: AtomTree, j: seq<Token>, k: seq<Token>)
    requires SettledAtom(a, j) && (EndsIf(k) || SameHead(j, k))
    ensures SettledAtom(a, k)
    decreases a
  {
    match a
    case VarToCode(_, _, _, b) => BlockSettledAnywhere(b, j, k);
    case ForEach(_, _, _, b) => BlockSettledAnywhere(b, j, k);
    case IfThen(_, _, b, tail) =>
      BlockSettledAnywhere(b, RenderElse(tail, j), RenderElse(tail, k));
      ElseSettled(tail, j, k);
    case Nested(b) => BlockSettledAnywhere(b, j, k);
    case _ =>
  }

  lemma {:induction false} ElseSettled(e: ElseTree, j: seq<Token>, k: seq<Token>)
    requires SettledElse(e, j) && (EndsIf(k) || SameHead(j, k))
    ensures SettledElse(e, k)
    decreases e
  {
    match e
    case NoElse =>
    case Spaced(_, tail) => ElseSettled(tail, j, k);
    case ElseCode(_, b) => BlockSettledAnywhere(b, j, k);
    case ElifCode(_, _, b, tail) =>
      BlockSettledAnywhere(b, RenderElse(tail, j), RenderElse(tail, k));
      ElseSettled(tail, j, k);
  }

  // ---- completeness ----

  lemma {:induction false} BlockComplete(b: BlockTree, k: seq<Token>)
    requires WfBlock(b) && SettledBlock(b, k)
    ensures ParseBlock(RenderBlock(b, k)) == Parsed(BlockOf(b), k)
    decreases b
  {
    CodeComplete(b.code, [b.close] + k);
  }

  lemma {:induction false} ElseComplete(e: ElseTree, k: seq<Token>)
    requires WfElse(e) && SettledElse(e, k)
    ensures ParseElse(RenderElse(e, k)) == Parsed(ElseOf(e), k)
    decreases e
  {
    match e
    case NoElse =>
    case Spaced(_, tail) => ElseComplete(tail, k);
    case ElseCode(_, b) => BlockComplete(b, k);
    case ElifCode(kw, exp, b, tail) =>
      var middle := RenderElse(tail, k);
      BlockComplete(b, middle);
      ElseComplete(tail, k);
      ElifUnfolds(kw, exp, RenderBlock(b, middle));
      IfUnfolds(exp, RenderBlock(b, middle));
  }

  lemma ElifUnfolds(kw: Token, exp: Token, ts: seq<Token>)
    requires kw.kind == Elif && exp.kind == Code
    ensures var p := ParseIf([exp] + ts);
            ParseElse([kw] + ([exp] + ts)) == if p.Failed? then Failed else Parsed(Some(CodeNode([p.value])), p.rest)
  {
    assert ([kw] + ([exp] + ts))[1..] == [exp] + ts;
    IfUnfolds(exp, ts);
    assert Pop(Code, [exp] + ts) == Parsed(exp, ts);
  }

  lemma RangeComplete(id: Token, exp1: Token, dots: Token, exp2: Token, k: seq<Token>)
    requires id.kind == Identifier && exp1.kind == Exp && dots.kind == DotDot && exp2.kind == Exp
    ensures ParseRange([id] + ([exp1] + ([dots] + ([exp2] + k)))) == Parsed(RangeNode(id, exp1, exp2), k)
  {
    var ts4 := [exp2] + k;
    var ts3 := [dots] + ts4;
    var ts2 := [exp1] + ts3;
    assert Pop(Identifier, [id] + ts2) == Parsed(id, ts2);
    assert Pop(Exp, ts2) == Parsed(exp1, ts3);
    assert Pop(DotDot, ts3) == Parsed(dots, ts4);
    assert Pop(Exp, ts4) == Parsed(exp2, k);
  }

  lemma VarUnfolds(id: Token, eq: Token, ts: seq<Token>)
    requires id.kind == Identifier && eq.kind == Equals && ts != [] && ts[0].kind == Open
    ensures var p := ParseBlock(ts);
            ParseVar([id] + ([eq] + ts)) == if p.Failed? then Failed else Parsed(VarNode(id, p.value), p.rest)
  {
    assert Pop(Identifier, [id] + ([eq] + ts)) == Parsed(id, [eq] + ts);
    assert Pop(Equals, [eq] + ts) == Parsed(eq, ts);
  }

  lemma VarExpComplete(id: Token, eq: Token, exp: Token, k: seq<Token>)
    requires id.kind == Identifier && eq.kind == Equals && exp.kind == Exp
    ensures ParseVar([id] + ([eq] + ([exp] + k))) == Parsed(VarNode(id, ExpNode(exp)), k)
  {
    assert Pop(Identifier, [id] + ([eq] + ([exp] + k))) == Parsed(id, [eq] + ([exp] + k));
    assert Pop(Equals, [eq] + ([exp] + k)) == Parsed(eq, [exp] + k);
  }

  lemma ForUnfolds(id: Token, sep: Option<Token>, ts: seq<Token>)
    requires id.kind == Identifier && (sep.Some? ==> sep.value.kind == Code) && ts != [] && ts[0].kind == Open
    ensures var p := ParseBlock(ts);
            ParseFor([id] + if sep.Some? then [sep.value] + ts else ts) ==
            if p.Failed? then Failed else Parsed(ForNode(id, sep, p.value), p.rest)
  {
    var ts1 := if sep.Some? then [sep.value] + ts else ts;
    assert Pop(Identifier, [id] + ts1) == Parsed(id, ts1);
    assert sep.Some? ==> ts1[1..] == ts;
  }

  lemma IfUnfolds(exp: Token, ts: seq<Token>)
    requires exp.kind == Code
    ensures var p := ParseBlock(ts);
            ParseIf([exp] + ts) ==
            if p.Failed? || ParseElse(p.rest).Failed? then Failed
            else Parsed(IfNode(exp, p.value, ParseElse(p.rest).value), ParseElse(p.rest).rest)
  {
    assert Pop(Code, [exp] + ts) == Parsed(exp, ts);
  }

  /** What follows the keyword decides the rest of the atom. */
  lemma KeywordComplete(kw: Token, ts: seq<Token>)
    ensures var all := [kw] + ts;
            && (kw.kind == Var ==> ParseAtomic(all) == Made(ParseVar(ts)))
            && (kw.kind == For ==> ParseAtomic(all) == Made(ParseFor(ts)))
            && (kw.kind == If ==> ParseAtomic(all) == Made(ParseIf(ts)))
            && (kw.kind == Range ==> ParseAtomic(all) == Made(ParseRange(ts)))
            && (kw.kind == Open ==> ParseAtomic(all) == Made(ParseBlock(all)))
  {
    assert ([kw] + ts)[1..] == ts;
  }

  lemma {:induction false} AtomComplete(a: AtomTree, k: seq<Token>)
    requires WfAtom(a) && SettledAtom(a, k)
    ensures RenderAtom(a, k) != [] && ParseAtomic(RenderAtom(a, k)) == Parsed(Some(AtomOf(a)), k)
    decreases a
  {
    match a
    case RawText(_) =>
    case VarToExp(kw, id, eq, exp) =>
      VarExpComplete(id, eq, exp, k);
      KeywordComplete(kw, [id] + ([eq] + ([exp] + k)));
    case VarToCode(kw, id, eq, b) =>
      BlockComplete(b, k);
      VarUnfolds(id, eq, RenderBlock(b, k));
      KeywordComplete(kw, [id] + ([eq] + RenderBlock(b, k)));
    case RangeOf(kw, id, exp1, dots, exp2) =>
      RangeComplete(id, exp1, dots, exp2, k);
      KeywordComplete(kw, [id] + ([exp1] + ([dots] + ([exp2] + k))));
    case ForEach(kw, id, sep, b) =>
      var ts := RenderBlock(b, k);
      BlockComplete(b, k);
      ForUnfolds(id, sep, ts);
      KeywordComplete(kw, [id] + if sep.Some? then [sep.value] + ts else ts);
    case IfThen(kw, exp, b, tail) =>
      var middle := RenderElse(tail, k);
      BlockComplete(b, middle);
      ElseComplete(tail, k);
      IfUnfolds(exp, RenderBlock(b, middle));
      KeywordComplete(kw, [exp] + RenderBlock(b, middle));
    case Reference(_) =>
    case DollarSign(_) =>
    case Expression(_, _) =>
    case Nested(b) =>
      BlockComplete(b, k);
      KeywordComplete(b.open, RenderCode(b.code, [b.close] + k));
  }

  /** On the tokens of any tree, followed by something code cannot go on with, the parser
      consumes exactly those tokens and builds the tree. */
  lemma {:induction false} CodeComplete(c: CodeTree, k: seq<Token>)
    requires WfCode(c) && SettledCode(c, k) && EndsCode(k)
    ensures ParseCode(RenderCode(c, k)) == Parsed(CodeOf(c), k)
    decreases c
  {
    match c
    case Nothing =>
    case Then(a, more) =>
      AtomComplete(a, RenderCode(more, k));
      CodeComplete(more, k);
  }

  // ---- which trees are rebuilt ----

  /** What is left after an else part that turned out to be missing. */
  lemma {:induction false} MissingElse(ts: seq<Token>)
    requires ParseElse(ts).Parsed? && ParseElse(ts).value.None?
    ensures var r := ParseElse(ts).rest; r == [] || !Blank(r[0])
  {
    if ts != [] && Blank(ts[0]) && ts[0].kind != Else && ts[0].kind != Elif {
      MissingElse(ts[1..]);
    }
  }

  /** A blank text was there, and none is left: it was taken for space before an else part. */
  ghost predicate BlankTaken(k: seq<Token>, rest: seq<Token>) {
    k != [] && k[0].kind == Code && Blank(k[0]) && (rest == [] || !Blank(rest[0]))
  }

  lemma {:induction false} BlockRebuilt(b: BlockTree, k: seq<Token>)
    requires WfBlock(b) && ParseBlock(RenderBlock(b, k)).Parsed?
    requires ParseBlock(RenderBlock(b, k)).value == BlockOf(b)
    ensures SettledBlock(b, k) && ParseBlock(RenderBlock(b, k)).rest == k
    decreases b
  {
    assert RenderBlock(b, k)[1..] == RenderCode(b.code, [b.close] + k);
    CodeRebuilt(b.code, [b.close] + k);
    BlockComplete(b, k);
  }

  lemma {:induction false} ElseRebuilt(e: ElseTree, k: seq<Token>)
    requires WfElse(e) && ParseElse(RenderElse(e, k)).Parsed?
    requires ParseElse(RenderElse(e, k)).value == ElseOf(e)
    ensures SettledElse(e, k) || BlankTaken(k, ParseElse(RenderElse(e, k)).rest)
    decreases e
  {
    match e
    case NoElse => MissingElse(k);
    case Spaced(t, tail) =>
      assert RenderElse(e, k)[1..] == RenderElse(tail, k);
      ElseRebuilt(tail, k);
    case ElseCode(kw, b) =>
      assert RenderElse(e, k)[1..] == RenderBlock(b, k);
      BlockRebuilt(b, k);
    case ElifCode(kw, exp, b, tail) =>
      var middle := RenderElse(tail, k);
      ElifUnfolds(kw, exp, RenderBlock(b, middle));
      IfUnfolds(exp, RenderBlock(b, middle));
      BlockRebuilt(b, middle);
      ElseRebuilt(tail, k);
  }

  lemma {:induction false} AtomRebuilt(a: AtomTree, k: seq<Token>)
    requires WfAtom(a) && RenderAtom(a, k) != [] && ParseAtomic(RenderAtom(a, k)).Parsed?
    requires ParseAtomic(RenderAtom(a, k)).value == Some(AtomOf(a))
    ensures SettledAtom(a, k) || BlankTaken(k, ParseAtomic(RenderAtom(a, k)).rest)
    decreases a
  {
    match a
    case VarToCode(kw, id, eq, b) =>
      KeywordComplete(kw, [id] + ([eq] + RenderBlock(b, k)));
      VarUnfolds(id, eq, RenderBlock(b, k));
      BlockRebuilt(b, k);
    case ForEach(kw, id, sep, b) =>
      var ts := RenderBlock(b, k);
      KeywordComplete(kw, [id] + if sep.Some? then [sep.value] + ts else ts);
      ForUnfolds(id, sep, ts);
      BlockRebuilt(b, k);
    case IfThen(kw, exp, b, tail) =>
      var middle := RenderElse(tail, k);
      KeywordComplete(kw, [exp] + RenderBlock(b, middle));
      IfUnfolds(exp, RenderBlock(b, middle));
      BlockRebuilt(b, middle);
      ElseRebuilt(tail, k);
    case Nested(b) =>
      KeywordComplete(b.open, RenderCode(b.code, [b.close] + k));
      BlockRebuilt(b, k);
    case _ =>
  }

  lemma CodeStep(ts: seq<Token>, node: Node, nodes: seq<Node>)
    requires ParseCode(ts).Parsed? && ParseCode(ts).value == [node] + nodes
    ensures ts != [] && ParseAtomic(ts).Parsed? && ParseAtomic(ts).value == Some(node)
    ensures ParseCode(ParseAtomic(ts).rest).Parsed? && ParseCode(ParseAtomic(ts).rest).value == nodes
  {
    var atom := ParseAtomic(ts).value;
    var atoms := ParseCode(ParseAtomic(ts).rest).value;
    assert [node] + nodes == [atom.value] + atoms;
    assert node == ([node] + nodes)[0] && nodes == ([node] + nodes)[1..];
    assert atom.value == ([atom.value] + atoms)[0] && atoms == ([atom.value] + atoms)[1..];
  }

  lemma BlockHead(b: BlockTree, k: seq<Token>)
    ensures RenderBlock(b, k) != [] && RenderBlock(b, k)[0] == b.open
  {
  }

  /** Only a text starts with a code token. */
  lemma TextAhead(a: AtomTree, k: seq<Token>)
    requires WfAtom(a)
    ensures RenderAtom(a, k) != []
    ensures RenderAtom(a, k)[0].kind == Code ==> a == RawText(RenderAtom(a, k)[0])
  {
    if a.Nested? {
      BlockHead(a.block, k);
    }
  }

  lemma FirstText(c: CodeTree, k: seq<Token>)
    requires WfCode(c) && EndsCode(k) && RenderCode(c, k) != [] && RenderCode(c, k)[0].kind == Code
    ensures CodeOf(c) != [] && CodeOf(c)[0] == RawCodeNode(RenderCode(c, k)[0])
  {
    assert c.Then? && RenderCode(c, k) == RenderAtom(c.first, RenderCode(c.more, k));
    TextAhead(c.first, RenderCode(c.more, k));
    assert CodeOf(c) == [AtomOf(c.first)] + CodeOf(c.more);
  }

  /** Code that does not start with a blank token is not parsed to start with one. */
  lemma NoBlankAhead(ts: seq<Token>, blank: Token)
    requires (ts == [] || !Blank(ts[0])) && Blank(blank) && ParseCode(ts).Parsed?
    ensures ParseCode(ts).value == [] || ParseCode(ts).value[0] != RawCodeNode(blank)
  {
    if ts != [] && ParseAtomic(ts).value.Some? && ts[0].kind != Code {
      assert ParseAtomic(ts).value.value != RawCodeNode(blank);
    }
  }

  lemma {:induction false} CodeRebuilt(c: CodeTree, k: seq<Token>)
    requires WfCode(c) && EndsCode(k) && ParseCode(RenderCode(c, k)).Parsed?
    requires ParseCode(RenderCode(c, k)).value == CodeOf(c)
    ensures SettledCode(c, k)
    decreases c
  {
    if c.Then? {
      var following := RenderCode(c.more, k);
      var ts := RenderAtom(c.first, following);
      CodeStep(ts, AtomOf(c.first), CodeOf(c.more));
      AtomRebuilt(c.first, following);
      if BlankTaken(following, ParseAtomic(ts).rest) {
        FirstText(c.more, k);
        NoBlankAhead(ParseAtomic(ts).rest, following[0]);
      }
      AtomComplete(c.first, following);
      CodeRebuilt(c.more, k);
    }
  }

  /** A tree is rebuilt from its tokens exactly when each $if without an else part in it is
      followed neither by an else part nor by blank text. */
  lemma RebuiltIffSettled(c: CodeTree, k: seq<Token>)
    requires WfCode(c) && EndsCode(k)
    ensures ParseCode(RenderCode(c, k)) == Parsed(CodeOf(c), k) <==> SettledCode(c, k)
  {
    if SettledCode(c, k) {
      CodeComplete(c, k);
    } else if ParseCode(RenderCode(c, k)) == Parsed(CodeOf(c), k) {
      CodeRebuilt(c, k);
    }
  }

  lemma ThenUnfolds(a: AtomTree, more: CodeTree, k: seq<Token>)
    ensures var c := Then(a, more);
            && RenderCode(c, k) == RenderAtom(a, RenderCode(more, k)) && CodeOf(c) == [AtomOf(a)] + CodeOf(more)
            && (WfCode(c) <==> WfAtom(a) && WfCode(more))
            && (SettledCode(c, k) <==> SettledAtom(a, RenderCode(more, k)) && SettledCode(more, k))
  {
  }

  /** Text after an $if without an else part is kept if it holds any character that is not
      one of the six kinds of white space. */
  lemma TextAfterIfIsKept(ifThen: AtomTree, t: Token, more: CodeTree, k: seq<Token>)
    requires ifThen.IfThen? && ifThen.tail == NoElse && WfAtom(ifThen) && SettledAtom(ifThen, [])
    requires t.kind == Code && exists c | c in t.value :: c !in " \t\n\r\U{0B}\U{0C}"
    requires WfCode(more) && SettledCode(more, k) && EndsCode(k)
    ensures ParseCode(RenderAtom(ifThen, [t] + RenderCode(more, k))) ==
            Parsed([AtomOf(ifThen), RawCodeNode(t)] + CodeOf(more), k)
  {
    var text, rest := Then(RawText(t), more), RenderCode(more, k);
    ThenUnfolds(RawText(t), more, k);
    ThenUnfolds(ifThen, text, k);
    assert !Blank(t) by {
      var c :| c in t.value && c !in " \t\n\r\U{0B}\U{0C}";
      SixSpaces(c);
    }
    assert SettledAtom(ifThen, [t] + rest) by {
      AtomSettled(ifThen, [], [t] + rest);
    }
    CodeComplete(Then(ifThen, text), k);
    TwoInFront(AtomOf(ifThen), RawCodeNode(t), CodeOf(more));
  }

  lemma TwoInFront(a: Node, b: Node, more: seq<Node>)
    ensures [a] + ([b] + more) == [a, b] + more
  {
  }

  /** Text of white space only is lost there: such trees are not rebuilt. */
  lemma BlankAfterIfIsLost(ifThen: AtomTree, blank: Token, more: CodeTree, k: seq<Token>)
    requires ifThen.IfThen? && ifThen.tail == NoElse && WfAtom(ifThen) && SettledAtom(ifThen, [])
    requires blank.kind == Code && forall c | c in blank.value :: c in " \t\n\r\U{0B}\U{0C}"
    requires WfCode(more) && SettledCode(more, k) && EndsCode(k) && EndsIf(RenderCode(more, k))
    ensures ParseCode(RenderAtom(ifThen, [blank] + RenderCode(more, k))) == Parsed([AtomOf(ifThen)] + CodeOf(more), k)
    ensures var c := Then(ifThen, Then(RawText(blank), more));
            WfCode(c) && !SettledCode(c, k) && RenderCode(c, k) == RenderAtom(ifThen, [blank] + RenderCode(more, k))
  {
    var rest := RenderCode(more, k);
    var spaced := ifThen.(tail := Spaced(blank, NoElse));
    assert Blank(blank) by {
      forall i | 0 <= i < |blank.value|
        ensures IsSpace(blank.value[i])
      {
        SixSpaces(blank.value[i]);
      }
    }
    assert !EndsIf([blank] + rest);
    ThenUnfolds(RawText(blank), more, k);
    ThenUnfolds(ifThen, Then(RawText(blank), more), k);
    ThenUnfolds(spaced, more, k);
    assert RenderElse(spaced.tail, rest) == [blank] + rest == RenderElse(NoElse, [blank] + rest);
    assert WfAtom(spaced) && AtomOf(spaced) == AtomOf(ifThen) by {
      assert WfElse(NoElse) && ElseOf(spaced.tail) == ElseOf(NoElse);
    }
    assert SettledAtom(spaced, rest) by {
      BlockSettledAnywhere(ifThen.block, [], [blank] + rest);
      assert SettledElse(NoElse, rest);
    }
    assert RenderAtom(spaced, rest) == RenderAtom(ifThen, [blank] + rest);
    CodeComplete(Then(spaced, more), k);
  }

  // ---- soundness ----

  ghost predicate DerivesCode(ts: seq<Token>, c: CodeTree, atoms: seq<Node>, k: seq<Token>) {
    WfCode(c) && SettledCode(c, k) && EndsCode(k) && ts == RenderCode(c, k) && CodeOf(c) == atoms
  }

  ghost predicate DerivesBlock(ts: seq<Token>, b: BlockTree, node: Node, k: seq<Token>) {
    WfBlock(b) && SettledBlock(b, k) && ts == RenderBlock(b, k) && BlockOf(b) == node
  }

  ghost predicate DerivesAtom(ts: seq<Token>, a: AtomTree, node: Node, k: seq<Token>) {
    WfAtom(a) && SettledAtom(a, k) && ts == RenderAtom(a, k) && AtomOf(a) == node
  }

  ghost predicate DerivesElse(ts: seq<Token>, e: ElseTree, node: Option<Node>, k: seq<Token>) {
    WfElse(e) && SettledElse(e, k) && ts == RenderElse(e, k) && ElseOf(e) == node
  }

  lemma HeadAndTail(ts: seq<Token>)
    requires ts != []
    ensures ts == [ts[0]] + ts[1..]
  {
  }

  lemma {:induction false} BlockSound(ts: seq<Token>) returns (b: BlockTree)
    requires ParseBlock(ts).Parsed?
    ensures DerivesBlock(ts, b, ParseBlock(ts).value, ParseBlock(ts).rest)
    decreases |ts|, 0
  {
    HeadAndTail(ts);
    var p := ParseCode(ts[1..]);
    var c := CodeSound(ts[1..]);
    HeadAndTail(p.rest);
    b := Bracketed(ts[0], c, p.rest[0]);
  }

  lemma {:induction false} ElseSound(ts: seq<Token>) returns (e: ElseTree)
    requires ParseElse(ts).Parsed?
    ensures DerivesElse(ts, e, ParseElse(ts).value, ParseElse(ts).rest)
    decreases |ts|, 0
  {
    if ts == [] {
      return NoElse;
    }
    HeadAndTail(ts);
    if ts[0].kind == Else {
      var b := BlockSound(ts[1..]);
      e := ElseCode(ts[0], b);
    } else if ts[0].kind == Elif {
      e := ElifSound(ts[0], ts[1..]);
    } else if Blank(ts[0]) {
      var tail := ElseSound(ts[1..]);
      e := Spaced(ts[0], tail);
    } else {
      e := NoElse;
    }
  }

  lemma {:induction false} ElifSound(kw: Token, ts: seq<Token>) returns (e: ElseTree)
    requires kw.kind == Elif && ParseElse([kw] + ts).Parsed?
    ensures DerivesElse([kw] + ts, e, ParseElse([kw] + ts).value, ParseElse([kw] + ts).rest)
    decreases |ts|, 1
  {
    assert ([kw] + ts)[1..] == ts;
    HeadAndTail(ts);
    var b := BlockSound(ts[1..]);
    var tail := ElseSound(ParseBlock(ts[1..]).rest);
    e := ElifCode(kw, ts[0], b, tail);
  }

  lemma {:induction false} VarSound(kw: Token, ts: seq<Token>) returns (a: AtomTree)
    requires kw.kind == Var && ParseVar(ts).Parsed?
    ensures DerivesAtom([kw] + ts, a, ParseVar(ts).value, ParseVar(ts).rest)
    decreases |ts|, 1
  {
    var ts1 := ts[1..];
    var ts2 := ts1[1..];
    HeadAndTail(ts);
    HeadAndTail(ts1);
    HeadAndTail(ts2);
    if ts2[0].kind == Exp {
      a := VarToExp(kw, ts[0], ts1[0], ts2[0]);
    } else {
      var b := BlockSound(ts2);
      a := VarToCode(kw, ts[0], ts1[0], b);
    }
  }

  lemma {:induction false} ForSound(kw: Token, ts: seq<Token>) returns (a: AtomTree)
    requires kw.kind == For && ParseFor(ts).Parsed?
    ensures DerivesAtom([kw] + ts, a, ParseFor(ts).value, ParseFor(ts).rest)
    decreases |ts|, 1
  {
    var ts1 := ts[1..];
    HeadAndTail(ts);
    HeadAndTail(ts1);
    if ts1[0].kind == Code {
      var b := BlockSound(ts1[1..]);
      a := ForEach(kw, ts[0], Some(ts1[0]), b);
    } else {
      var b := BlockSound(ts1);
      a := ForEach(kw, ts[0], None, b);
    }
  }

  lemma {:induction false} IfSound(kw: Token, ts: seq<Token>) returns (a: AtomTree)
    requires kw.kind == If && ParseIf(ts).Parsed?
    ensures DerivesAtom([kw] + ts, a, ParseIf(ts).value, ParseIf(ts).rest)
    decreases |ts|, 1
  {
    HeadAndTail(ts);
    var b := BlockSound(ts[1..]);
    var tail := ElseSound(ParseBlock(ts[1..]).rest);
    a := IfThen(kw, ts[0], b, tail);
  }

  lemma RangeSound(kw: Token, ts: seq<Token>) returns (a: AtomTree)
    requires kw.kind == Range && ParseRange(ts).Parsed?
    ensures DerivesAtom([kw] + ts, a, ParseRange(ts).value, ParseRange(ts).rest)
  {
    var ts1 := ts[1..];
    var ts2 := ts1[1..];
    var ts3 := ts2[1..];
    HeadAndTail(ts);
    HeadAndTail(ts1);
    HeadAndTail(ts2);
    HeadAndTail(ts3);
    a := RangeOf(kw, ts[0], ts1[0], ts2[0], ts3[0]);
  }

  lemma {:induction false} AtomSound(ts: seq<Token>) returns (a: AtomTree)
    requires ts != [] && ParseAtomic(ts).Parsed? && ParseAtomic(ts).value.Some?
    ensures DerivesAtom(ts, a, ParseAtomic(ts).value.value, ParseAtomic(ts).rest)
    decreases |ts|, 1
  {
    HeadAndTail(ts);
    var head, ts0 := ts[0], ts[1..];
    match head.kind {
      case Code => a := RawText(head);
      case Var => a := VarSound(head, ts0);
      case For => a := ForSound(head, ts0);
      case If => a := IfSound(head, ts0);
      case Range => a := RangeSound(head, ts0);
      case IdRef => a := Reference(head);
      case LiteralDollar => a := DollarSign(head);
      case Dollar =>
        HeadAndTail(ts0);
        a := Expression(head, ts0[0]);
      case Open =>
        var b := BlockSound(ts);
        a := Nested(b);
    }
  }

  lemma {:induction false} CodeSound(ts: seq<Token>) returns (c: CodeTree)
    requires ParseCode(ts).Parsed?
    ensures DerivesCode(ts, c, ParseCode(ts).value, ParseCode(ts).rest)
    decreases |ts|, 2
  {
    if ts == [] || ParseAtomic(ts).value.None? {
      c := Nothing;
    } else {
      var a := AtomSound(ts);
      var more := CodeSound(ParseAtomic(ts).rest);
      c := Then(a, more);
    }
  }

  /** The parser accepts exactly the renderings of the grammar's trees: it succeeds with
      the atoms n and the remaining tokens k if and only if some concrete tree with that
      abstract tree renders to what was consumed. */
  lemma ParserMeetsGrammar(ts: seq<Token>, atoms: seq<Node>, k: seq<Token>)
    ensures ParseCode(ts) == Parsed(atoms, k) <==> exists c :: DerivesCode(ts, c, atoms, k)
  {
    if ParseCode(ts) == Parsed(atoms, k) {
      var c := CodeSound(ts);
      assert DerivesCode(ts, c, atoms, k);
    }
    if c :| DerivesCode(ts, c, atoms, k) {
      CodeComplete(c, k);
    }
  }

  /** The grammar is unambiguous: two derivations from one token sequence agree on the
      abstract tree and on where the code ends. */
  lemma GrammarUnambiguous(ts: seq<Token>, c: CodeTree, d: CodeTree, m: seq<Node>, n: seq<Node>,
                           j: seq<Token>, k: seq<Token>)
    requires DerivesCode(ts, c, m, j) && DerivesCode(ts, d, n, k)
    ensures m == n && j == k
  {
    CodeComplete(c, j);
    CodeComplete(d, k);
  }

  /** The code $if EXP [[...]] TAIL on its own. */
  ghost function SingleIf(ifKw: Token, elif: ElseTree): CodeTree
    requires elif.ElifCode?
  {
    Then(IfThen(ifKw, elif.exp, elif.block, elif.tail), Nothing)
  }

  lemma SingleIfFits(ifKw: Token, elif: ElseTree, j: seq<Token>, k: seq<Token>)
    requires elif.ElifCode? && WfElse(elif) && SettledElse(elif, j) && ifKw.kind == If && EndsIf(k)
    ensures WfCode(SingleIf(ifKw, elif)) && SettledCode(SingleIf(ifKw, elif), k)
    ensures CodeOf(SingleIf(ifKw, elif)) == [IfNode(elif.exp, BlockOf(elif.block), ElseOf(elif.tail))]
  {
    var a := IfThen(ifKw, elif.exp, elif.block, elif.tail);
    ElseSettled(elif.tail, j, k);
    BlockSettledAnywhere(elif.block, RenderElse(elif.tail, j), RenderElse(elif.tail, k));
    assert WfAtom(a) && SettledAtom(a, k) && RenderCode(Nothing, k) == k;
    assert WfCode(Nothing) && SettledCode(Nothing, k) && CodeOf(Nothing) == [];
  }

  /** $elif EXP [[...]] TAIL is parsed like $else [[ $if EXP [[...]] TAIL ]]. */
  lemma ElifIsNestedIf(elif: ElseTree, elseKw: Token, open: Token, ifKw: Token, close: Token, k: seq<Token>)
    requires elif.ElifCode? && WfElse(elif) && SettledElse(elif, k)
    requires elseKw.kind == Else && open.kind == Open && ifKw.kind == If && close.kind == Close && !Blank(close)
    ensures var spelled := ElseCode(elseKw, Bracketed(open, SingleIf(ifKw, elif), close));
            ParseElse(RenderElse(spelled, k)) == ParseElse(RenderElse(elif, k)) == Parsed(ElseOf(elif), k)
  {
    var block := Bracketed(open, SingleIf(ifKw, elif), close);
    SingleIfFits(ifKw, elif, k, [close] + k);
    assert WfBlock(block) && SettledBlock(block, k);
    ElseComplete(elif, k);
    ElseComplete(ElseCode(elseKw, block), k);
  }
}

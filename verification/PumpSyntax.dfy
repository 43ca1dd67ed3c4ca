/** Tokens and syntax trees of the Pump meta-language. */
module PumpSyntax {
  import opened Collections

  datatype Kind =
    | Code | Var | Elif | Else | For | If | Range | IdRef | LiteralDollar | Dollar
    | Open | Close | Identifier | Equals | Exp | DotDot

  datatype Token = Token(kind: Kind, value: string)

  predicate IsSpace(c: char) { c in " \t\n\r" || c == 11 as char || c == 12 as char }

  lemma SixSpaces(c: char)
    ensures IsSpace(c) <==> c in " \t\n\r\U{0B}\U{0C}"
  {
    assert " \t\n\r\U{0B}\U{0C}" == " \t\n\r" + ['\U{0B}', '\U{0C}'];
  }

  /** A token that consists of white space only. */
  predicate Blank(t: Token) { forall i | 0 <= i < |t.value| :: IsSpace(t.value[i]) }

  /** The trees that the parser builds. An expression is kept as its token. */
  datatype Node =
    | CodeNode(atoms: seq<Node>)
    | VarNode(id: Token, definition: Node)
    | RangeNode(id: Token, exp1: Token, exp2: Token)
    | ForNode(id: Token, sep: Option<Token>, body: Node)
    | IfNode(exp: Token, thenBranch: Node, elseBranch: Option<Node>)
    | RawCodeNode(rawCode: Token)
    | LiteralDollarNode(dollar: Token)
    | ExpNode(token: Token)

  /** The expression that $name stands for: the name without the dollar sign. */
  function NameOf(t: Token): Token {
    Token(Identifier, if t.value == "" then "" else t.value[1..])
  }
}

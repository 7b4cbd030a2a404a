/** What Parser.parseExpression computes, as functions on the remaining tokens. */
module ScriptGrammar {
  import opened ScriptSyntax
  import opened Results

  datatype Error = UnexpectedEnd | UnexpectedToken | UnexpectedBinary | UnexpectedTernary | LoopLimit | NoExpression

  datatype Parsed = Parsed(node: Expr, rest: seq<Token>)

  predicate Next(ts: seq<Token>, s: Sym) {
    ts != [] && ts[0] == Sym(s)
  }

  function Expect(ts: seq<Token>, s: Sym): (r: Result<seq<Token>, Error>)
    ensures r.Ok? ==> |r.value| == |ts| - 1
  {
    if ts == [] then Err(UnexpectedEnd) else if ts[0] != Sym(s) then Err(UnexpectedToken) else Ok(ts[1..])
  }

  /** A token that is an expression by itself. */
  function AtomOf(t: Token): Option<Expr> {
    match t
    case Ident(s) => Some(IdentNode(s))
    case Number(s) => Some(NumberNode(s))
    case Boolean(s) => Some(BooleanNode(s != ""))
    case Str(s) => Some(StringNode(s))
    case Sym(BooleanKeyword) => Some(KeywordNode(BooleanType))
    case Sym(NumberKeyword) => Some(KeywordNode(NumberType))
    case Sym(StringKeyword) => Some(KeywordNode(StringType))
    case Sym(Null) => Some(NullNode)
    case _ => None
  }

  /** parseExprPart: the part before its loop. */
  function ParsePart(ts: seq<Token>, depth: nat): (r: Result<Parsed, Error>)
    ensures r.Ok? ==> |r.value.rest| < |ts|
    decreases |ts|, 3
  {
    if ts != [] && AtomOf(ts[0]).Some? then Loop(Some(AtomOf(ts[0]).value), ts[1..], depth, 0)
    else if Next(ts, LeftParen) then
      var inner :- ParsePart(ts[1..], 1);
      var rest :- Expect(inner.rest, RightParen);
      Loop(Some(inner.node), rest, depth, 0)
    else Loop(None, ts, depth, 0)
  }

  function Finish(n: Option<Expr>, ts: seq<Token>): Result<Parsed, Error> {
    if n.None? then Err(NoExpression) else Ok(Parsed(n.value, ts))
  }

  /** One iteration of the loop, up to the prefix operators. */
  function Loop(n: Option<Expr>, ts: seq<Token>, depth: nat, i: nat): (r: Result<Parsed, Error>)
    ensures r.Ok? ==> |r.value.rest| <= |ts| && (n.None? ==> |r.value.rest| < |ts|)
    decreases |ts|, 2
  {
    if i > LOOP_LIMIT then Err(LoopLimit)
    else if depth >= 8 then Finish(n, ts)
    else if n.Some? && Next(ts, Period) then
      var b :- ParsePart(ts[1..], 8);
      Loop(Some(BinaryNode(n.value, Member, b.node)), b.rest, depth, i + 1)
    else if n.Some? && Next(ts, LeftParen) then
      if Next(ts[1..], RightParen) then Loop(Some(BinaryNode(n.value, Call, NullNode)), ts[2..], depth, i + 1)
      else
        var b :- ParsePart(ts[1..], 1);
        var rest :- Expect(b.rest, RightParen);
        Loop(Some(BinaryNode(n.value, Call, b.node)), rest, depth, i + 1)
    else if n.Some? && Next(ts, LeftBracket) then
      var b :- ParsePart(ts[1..], 1);
      var rest :- Expect(b.rest, RightBracket);
      Loop(Some(BinaryNode(n.value, Subscript, b.node)), rest, depth, i + 1)
    else if n.None? && ts != [] && PrefixOf(ts[0]).Some? then
      var x :- ParsePart(ts[1..], 7);
      Infix(Some(UnaryNode(PrefixOf(ts[0]).value, x.node)), x.rest, depth, i)
    else Infix(n, ts, depth, i)
  }

  /** The rest of the iteration: infix operators above the frame's depth, then the ternary. */
  function Infix(n: Option<Expr>, ts: seq<Token>, depth: nat, i: nat): (r: Result<Parsed, Error>)
    ensures r.Ok? ==> |r.value.rest| <= |ts| && (n.None? ==> |r.value.rest| < |ts|)
    decreases |ts|, 1
  {
    if ts != [] && InfixOf(ts[0]).Some? && depth < Level(InfixOf(ts[0]).value) then
      if n.None? then Err(UnexpectedBinary)
      else
        var op := InfixOf(ts[0]).value;
        var b :- ParsePart(ts[1..], Level(op));
        Loop(Some(BinaryNode(n.value, op, b.node)), b.rest, depth, i + 1)
    else if Next(ts, Sym.Ternary) && depth < TERNARY_LEVEL then
      if n.None? then Err(UnexpectedTernary)
      else
        var t :- ParsePart(ts[1..], TERNARY_LEVEL);
        var rest :- Expect(t.rest, Colon);
        var f :- ParsePart(rest, TERNARY_LEVEL);
        Loop(Some(TernaryNode(n.value, t.node, f.node)), f.rest, depth, i + 1)
    else Finish(n, ts)
  }

  /** new Parser(source).parseExpression(): at least one token, and none left over. */
  function Parse(ts: seq<Token>): Result<Expr, Error> {
    if ts == [] then Err(UnexpectedEnd)
    else
      var r :- ParsePart(ts, 0);
      if r.rest != [] then Err(UnexpectedToken) else Ok(r.node)
  }
}

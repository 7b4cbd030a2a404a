/** The parser object: a current token, the scanner behind it, and the text last accepted. */
module ScriptParser {
  import opened ScriptSyntax
  import opened ScriptGrammar
  import opened Results

  datatype TokenType = SymType(s: Sym) | IdentType | NumberLiteral | BooleanLiteral | StringLiteral

  function TypeOf(t: Token): TokenType {
    match t
    case Sym(s) => SymType(s)
    case Ident(_) => IdentType
    case Number(_) => NumberLiteral
    case Boolean(_) => BooleanLiteral
    case Str(_) => StringLiteral
  }

  function TextOf(t: Token): string {
    if t.Sym? then "" else t.text
  }

  /** How an iteration ends: the loop goes on, or it breaks. */
  datatype Turn = Again(next: Expr) | Done(result: Option<Expr>)

  class Parser {
    var token: Option<Token>
    var scanner: seq<Token>
    var acceptedText: string

    ghost predicate Valid()
      reads this
    {
      token.None? ==> scanner == []
    }

    /** The tokens not consumed yet. */
    ghost function Input(): seq<Token>
      reads this
    {
      if token.None? then [] else [token.value] + scanner
    }

    constructor (source: seq<Token>)
      requires source != []
      ensures Valid() && Input() == source
    {
      token, scanner, acceptedText := Some(source[0]), source[1..], "";
    }

    method Advance()
      requires Valid() && token.Some?
      modifies this
      ensures Valid() && Input() == old(Input())[1..] && acceptedText == old(acceptedText)
    {
      if scanner == [] {
        token := None;
      } else {
        token, scanner := Some(scanner[0]), scanner[1..];
      }
    }

    method Accept(t: TokenType) returns (ok: bool)
      requires Valid()
      modifies this
      ensures Valid() && ok == (old(Input()) != [] && TypeOf(old(Input())[0]) == t)
      ensures Input() == if ok then old(Input())[1..] else old(Input())
      ensures ok ==> acceptedText == TextOf(old(Input())[0])
    {
      if token.None? || TypeOf(token.value) != t {
        return false;
      }
      acceptedText := TextOf(token.value);
      Advance();
      return true;
    }

    method ExpectSym(s: Sym) returns (r: Result<(), Error>)
      requires Valid()
      modifies this
      ensures Valid()
      ensures var e := Expect(old(Input()), s);
        if e.Err? then r == Err(e.error) else r == Ok(()) && Input() == e.value
    {
      if token.None? {
        return Err(UnexpectedEnd);
      }
      if TypeOf(token.value) != SymType(s) {
        return Err(UnexpectedToken);
      }
      acceptedText := TextOf(token.value);
      Advance();
      return Ok(());
    }

    /** Accepts an infix operator of one level. */
    method AcceptInfix(level: nat) returns (op: Option<BinaryOp>)
      requires Valid()
      modifies this
      ensures Valid()
      ensures var ts := old(Input());
        if ts != [] && InfixOf(ts[0]).Some? && Level(InfixOf(ts[0]).value) == level
        then op == InfixOf(ts[0]) && Input() == ts[1..]
        else op.None? && Input() == ts
    {
      op := None;
      if token.Some? {
        var o := InfixOf(token.value);
        if o.Some? && Level(o.value) == level {
          var _ := Accept(TypeOf(token.value));
          op := o;
        }
      }
    }

    method AcceptPrefix() returns (op: Option<UnaryOp>)
      requires Valid()
      modifies this
      ensures Valid()
      ensures var ts := old(Input());
        if ts != [] && PrefixOf(ts[0]).Some? then op == PrefixOf(ts[0]) && Input() == ts[1..]
        else op.None? && Input() == ts
    {
      op := None;
      if token.Some? && PrefixOf(token.value).Some? {
        op := PrefixOf(token.value);
        var _ := Accept(TypeOf(token.value));
      }
    }

    /** The atoms that an expression can start with. */
    method AcceptAtom() returns (n: Option<Expr>)
      requires Valid()
      modifies this
      ensures Valid()
      ensures var ts := old(Input());
        if ts != [] && AtomOf(ts[0]).Some? then n == AtomOf(ts[0]) && Input() == ts[1..]
        else n.None? && Input() == ts
    {
      var ok := Accept(IdentType);
      if ok { return Some(IdentNode(acceptedText)); }
      ok := Accept(SymType(BooleanKeyword));
      if ok { return Some(KeywordNode(BooleanType)); }
      ok := Accept(SymType(NumberKeyword));
      if ok { return Some(KeywordNode(NumberType)); }
      ok := Accept(SymType(StringKeyword));
      if ok { return Some(KeywordNode(StringType)); }
      ok := Accept(NumberLiteral);
      if ok { return Some(NumberNode(acceptedText)); }
      ok := Accept(BooleanLiteral);
      if ok { return Some(BooleanNode(acceptedText != "")); }
      ok := Accept(StringLiteral);
      if ok { return Some(StringNode(acceptedText)); }
      ok := Accept(SymType(Sym.Null));
      if ok { return Some(NullNode); }
      return None;
    }

    /** The method's outcome is the specification's, and the tokens left over are the same. */
    ghost predicate Agrees(r: Result<Expr, Error>, spec: Result<Parsed, Error>)
      reads this
    {
      if spec.Err? then r == Err(spec.error) else r == Ok(spec.value.node) && Input() == spec.value.rest
    }

    method ParseExpression() returns (r: Result<Expr, Error>)
      requires Valid() && Input() != []
      modifies this
      ensures r == Parse(old(Input()))
    {
      var result :- ParseExprPart(0);
      if token.Some? {
        return Err(UnexpectedToken);
      }
      return Ok(result);
    }

    method ParseExprPart(depth: nat) returns (r: Result<Expr, Error>)
      requires Valid()
      modifies this
      ensures Valid() && Agrees(r, ParsePart(old(Input()), depth))
      decreases |Input()|, 4
    {
      ghost var spec := ParsePart(Input(), depth);
      var n := AcceptAtom();
      if n.None? {
        var ok := Accept(SymType(LeftParen));
        if ok {
          var inner :- ParseExprPart(1);
          var _ :- ExpectSym(RightParen);
          n := Some(inner);
        }
      }
      assert spec == Loop(n, Input(), depth, 0);
      r := ParseLoop(n, depth);
    }

    /** What a part of an iteration did: failed, applied an operator and consumed tokens, or nothing. */
    ghost predicate Stepped(r: Result<Option<Expr>, Error>, spec: Result<Parsed, Error>, before: seq<Token>,
      depth: nat, i: nat)
      reads this
    {
      match r
      case Err(e) => spec == Err(e)
      case Ok(Some(m)) => spec == Loop(Some(m), Input(), depth, i + 1) && |Input()| < |before|
      case Ok(None) => Input() == before
    }

    /** Member access, call and subscript. */
    method ParsePostfix(n: Expr, depth: nat, ghost i: nat) returns (r: Result<Option<Expr>, Error>)
      requires Valid() && depth < 8 && i <= LOOP_LIMIT
      modifies this
      ensures Valid() && Stepped(r, Loop(Some(n), old(Input()), depth, i), old(Input()), depth, i)
      ensures r == Ok(None) ==> Loop(Some(n), Input(), depth, i) == Infix(Some(n), Input(), depth, i)
      decreases |Input()|, 1
    {
      var ok := Accept(SymType(Period));
      if ok {
        var b :- ParseExprPart(8);
        return Ok(Some(BinaryNode(n, Member, b)));
      }
      ok := Accept(SymType(LeftParen));
      if ok {
        ok := Accept(SymType(RightParen));
        if ok {
          return Ok(Some(BinaryNode(n, Call, NullNode)));
        }
        var b :- ParseExprPart(1);
        var _ :- ExpectSym(RightParen);
        return Ok(Some(BinaryNode(n, Call, b)));
      }
      ok := Accept(SymType(LeftBracket));
      if ok {
        var b :- ParseExprPart(1);
        var _ :- ExpectSym(RightBracket);
        return Ok(Some(BinaryNode(n, Subscript, b)));
      }
      return Ok(None);
    }

    /** The prefix operators, for a frame that holds no expression yet. */
    method ParsePrefix(depth: nat, ghost i: nat) returns (r: Result<Option<Expr>, Error>)
      requires Valid() && depth < 8 && i <= LOOP_LIMIT
      modifies this
      ensures Valid() && (r.Ok? ==> |Input()| <= |old(Input())|)
      ensures var spec := Loop(None, old(Input()), depth, i);
        if r.Err? then spec == Err(r.error) else spec == Infix(r.value, Input(), depth, i)
      decreases |Input()|, 1
    {
      var op := AcceptPrefix();
      if op.Some? {
        var x :- ParseExprPart(7);
        return Ok(Some(UnaryNode(op.value, x)));
      }
      return Ok(None);
    }

    /** The right operand of an infix operator that was just accepted. */
    method ParseRight(n: Option<Expr>, op: BinaryOp, depth: nat, ghost i: nat, ghost before: seq<Token>)
      returns (r: Result<Option<Expr>, Error>)
      requires Valid() && before != [] && InfixOf(before[0]) == Some(op) && depth < Level(op) && Input() == before[1..]
      modifies this
      ensures Valid() && r != Ok(None) && Stepped(r, Infix(n, before, depth, i), before, depth, i)
      decreases |Input()|, 5
    {
      if n.None? {
        return Err(UnexpectedBinary);
      }
      var b :- ParseExprPart(Level(op));
      return Ok(Some(BinaryNode(n.value, op, b)));
    }

    method ParseTernary(n: Option<Expr>, depth: nat, ghost i: nat, ghost before: seq<Token>)
      returns (r: Result<Option<Expr>, Error>)
      requires Valid() && Next(before, Sym.Ternary) && depth < TERNARY_LEVEL && Input() == before[1..]
      modifies this
      ensures Valid() && r != Ok(None) && Stepped(r, Infix(n, before, depth, i), before, depth, i)
      decreases |Input()|, 5
    {
      if n.None? {
        return Err(UnexpectedTernary);
      }
      var t :- ParseExprPart(TERNARY_LEVEL);
      var _ :- ExpectSym(Colon);
      var f :- ParseExprPart(TERNARY_LEVEL);
      return Ok(Some(TernaryNode(n.value, t, f)));
    }

    /** The cascade of infix levels, cut off at the depth of the frame. */
    method ParseInfix(n: Option<Expr>, depth: nat, ghost i: nat) returns (r: Result<Option<Expr>, Error>)
      requires Valid()
      modifies this
      ensures Valid() && Stepped(r, Infix(n, old(Input()), depth, i), old(Input()), depth, i)
      ensures r == Ok(None) ==> Infix(n, Input(), depth, i) == Finish(n, Input())
      decreases |Input()|, 1
    {
      ghost var ts := Input();
      if depth >= 7 { return Ok(None); }
      var op := AcceptInfix(7);
      if op.Some? { r := ParseRight(n, op.value, depth, i, ts); return; }
      if depth >= 6 { return Ok(None); }
      op := AcceptInfix(6);
      if op.Some? { r := ParseRight(n, op.value, depth, i, ts); return; }
      if depth >= 5 { return Ok(None); }
      op := AcceptInfix(5);
      if op.Some? { r := ParseRight(n, op.value, depth, i, ts); return; }
      if depth >= 4 { return Ok(None); }
      op := AcceptInfix(4);
      if op.Some? { r := ParseRight(n, op.value, depth, i, ts); return; }
      if depth >= 3 { return Ok(None); }
      op := AcceptInfix(3);
      if op.Some? { r := ParseRight(n, op.value, depth, i, ts); return; }
      var ok := Accept(SymType(Sym.Ternary));
      if ok { r := ParseTernary(n, depth, i, ts); return; }
      if depth >= 2 { return Ok(None); }
      op := AcceptInfix(2);
      if op.Some? { r := ParseRight(n, op.value, depth, i, ts); return; }
      return Ok(None);
    }

    /** One iteration: either an operator was applied, or the loop breaks with what it holds. */
    method Iterate(n0: Option<Expr>, depth: nat, ghost i: nat) returns (r: Result<Turn, Error>)
      requires Valid() && i <= LOOP_LIMIT
      modifies this
      ensures Valid()
      ensures var spec := Loop(n0, old(Input()), depth, i);
        match r
        case Err(e) => spec == Err(e)
        case Ok(Again(m)) => spec == Loop(Some(m), Input(), depth, i + 1) && |Input()| < |old(Input())|
        case Ok(Done(n)) => spec == Finish(n, Input()) && |Input()| <= |old(Input())|
      decreases |Input()|, 2
    {
      if depth >= 8 {
        return Ok(Done(n0));
      }
      hide ParsePart;
      var n := n0;
      if n.Some? {
        var m :- ParsePostfix(n.value, depth, i);
        if m.Some? {
          return Ok(Again(m.value));
        }
      } else {
        n :- ParsePrefix(depth, i);
      }
      assert Loop(n0, old(Input()), depth, i) == Infix(n, Input(), depth, i);
      hide Loop, Infix;
      var m :- ParseInfix(n, depth, i);
      return Ok(if m.None? then Done(n) else Again(m.value));
    }

    /** The loop of parseExprPart. */
    method ParseLoop(n0: Option<Expr>, depth: nat) returns (r: Result<Expr, Error>)
      requires Valid()
      modifies this
      ensures Valid() && Agrees(r, Loop(n0, old(Input()), depth, 0))
      decreases |Input()|, 3
    {
      ghost var spec := Loop(n0, Input(), depth, 0);
      ghost var length := |Input()|;
      var n, i := n0, 0;
      while true
        invariant Valid() && |Input()| <= length && spec == Loop(n, Input(), depth, i)
        decreases |Input()|
      {
        if i > LOOP_LIMIT {
          return Err(LoopLimit);
        }
        var turn :- Iterate(n, depth, i);
        if turn.Done? {
          n := turn.result;
          break;
        }
        n, i := Some(turn.next), i + 1;
      }
      if n.None? {
        return Err(NoExpression);
      }
      return Ok(n.value);
    }
  }

  /** new Parser(source).parseExpression() */
  method ParseSource(source: seq<Token>) returns (r: Result<Expr, Error>)
    ensures r == Parse(source)
  {
    if source == [] {
      return Err(UnexpectedEnd);
    }
    var parser := new Parser(source);
    r := parser.ParseExpression();
  }
}

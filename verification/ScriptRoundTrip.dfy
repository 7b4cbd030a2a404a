/** Parsing what the printer prints: the same tree, unless a chain is longer than the loop limit. */
module ScriptRoundTrip {
  import opened ScriptSyntax
  import opened ScriptGrammar
  import opened Results

  /** A frame of this depth does not go on with token t. */
  predicate Continues(t: Token, depth: nat) {
    || (depth < 8 && (t == Sym(Period) || t == Sym(LeftParen) || t == Sym(LeftBracket)))
    || (InfixOf(t).Some? && depth < Level(InfixOf(t).value))
    || (t == Sym(Sym.Ternary) && depth < TERNARY_LEVEL)
  }

  predicate Stops(ts: seq<Token>, depth: nat) {
    ts == [] || !Continues(ts[0], depth)
  }

  /** The depth of the last frame opened inside e; only it sees what follows e. */
  function LastDepth(e: Expr): nat {
    match e
    case UnaryNode(_, _) => 7
    case BinaryNode(_, op, _) => Level(op)
    case TernaryNode(_, _, _) => TERNARY_LEVEL
    case _ => 8
  }

  lemma StopsDeeper(ts: seq<Token>, d: nat, d': nat)
    requires Stops(ts, d) && d <= d'
    ensures Stops(ts, d')
  {}

  lemma LevelRange(op: BinaryOp)
    ensures 2 <= Level(op) <= 8
  {}

  lemma SymRoundTrip(op: BinaryOp)
    requires Level(op) < 8
    ensures InfixSym(SymOfBinary(op)) == Some(op)
    ensures SymOfBinary(op) !in {Period, LeftParen, LeftBracket, RightParen, RightBracket, Sym.Ternary}
  {}

  lemma PrefixRoundTrip(op: UnaryOp)
    ensures PrefixSym(SymOfUnary(op)) == Some(op) && AtomOf(Sym(SymOfUnary(op))) == None
    ensures SymOfUnary(op) != LeftParen
  {}

  lemma AtomRoundTrip(e: Expr)
    requires IsAtom(e)
    ensures AtomOf(AtomToken(e)) == Some(Truthy(e))
  {}

  /** A frame that holds an expression and sees no further operator returns it. */
  lemma LoopStops(n: Expr, ts: seq<Token>, d: nat, i: nat)
    requires Stops(ts, d) && i <= LOOP_LIMIT
    ensures Loop(Some(n), ts, d, i) == Ok(Parsed(n, ts))
  {}

  // One loop iteration per operator. An error in an operand is the error of the whole.

  lemma InfixStep(n: Expr, op: BinaryOp, ts: seq<Token>, d: nat, i: nat)
    requires Level(op) < 8 && d < Level(op) && i <= LOOP_LIMIT
    ensures var r := ParsePart(ts, Level(op));
      Loop(Some(n), [Sym(SymOfBinary(op))] + ts, d, i)
      == if r.Err? then r else Loop(Some(BinaryNode(n, op, r.value.node)), r.value.rest, d, i + 1)
  {
    SymRoundTrip(op);
    var all := [Sym(SymOfBinary(op))] + ts;
    assert all[1..] == ts;
  }

  lemma MemberStep(n: Expr, ts: seq<Token>, d: nat, i: nat)
    requires d < 8 && i <= LOOP_LIMIT
    ensures var r := ParsePart(ts, 8);
      Loop(Some(n), [Sym(Period)] + ts, d, i)
      == if r.Err? then r else Loop(Some(BinaryNode(n, Member, r.value.node)), r.value.rest, d, i + 1)
  {
    assert ([Sym(Period)] + ts)[1..] == ts;
  }

  lemma EmptyCallStep(n: Expr, rest: seq<Token>, d: nat, i: nat)
    requires d < 8 && i <= LOOP_LIMIT
    ensures Loop(Some(n), [Sym(LeftParen), Sym(RightParen)] + rest, d, i)
         == Loop(Some(BinaryNode(n, Call, NullNode)), rest, d, i + 1)
  {
    var ts := [Sym(LeftParen), Sym(RightParen)] + rest;
    assert ts[1..][0] == Sym(RightParen) && ts[2..] == rest;
  }

  /** The operand was read up to the closing token c. */
  predicate Closed(r: Result<Parsed, Error>, c: Sym, rest: seq<Token>) {
    r.Ok? ==> r.value.rest == [Sym(c)] + rest
  }

  lemma CallStep(n: Expr, ts: seq<Token>, rest: seq<Token>, d: nat, i: nat)
    requires d < 8 && i <= LOOP_LIMIT && ts != [] && ts[0] != Sym(RightParen)
    requires Closed(ParsePart(ts, 1), RightParen, rest)
    ensures var r := ParsePart(ts, 1);
      Loop(Some(n), [Sym(LeftParen)] + ts, d, i)
      == if r.Err? then r else Loop(Some(BinaryNode(n, Call, r.value.node)), rest, d, i + 1)
  {
    assert ([Sym(LeftParen)] + ts)[1..] == ts;
    assert ([Sym(RightParen)] + rest)[1..] == rest;
  }

  lemma SubscriptStep(n: Expr, ts: seq<Token>, rest: seq<Token>, d: nat, i: nat)
    requires d < 8 && i <= LOOP_LIMIT && Closed(ParsePart(ts, 1), RightBracket, rest)
    ensures var r := ParsePart(ts, 1);
      Loop(Some(n), [Sym(LeftBracket)] + ts, d, i)
      == if r.Err? then r else Loop(Some(BinaryNode(n, Subscript, r.value.node)), rest, d, i + 1)
  {
    assert ([Sym(LeftBracket)] + ts)[1..] == ts;
    assert ([Sym(RightBracket)] + rest)[1..] == rest;
  }

  lemma TernaryStep(n: Expr, ts: seq<Token>, us: seq<Token>, d: nat, i: nat)
    requires d < TERNARY_LEVEL && i <= LOOP_LIMIT && Closed(ParsePart(ts, TERNARY_LEVEL), Colon, us)
    ensures var t, f := ParsePart(ts, TERNARY_LEVEL), ParsePart(us, TERNARY_LEVEL);
      Loop(Some(n), [Sym(Sym.Ternary)] + ts, d, i)
      == if t.Err? then t else if f.Err? then f
         else Loop(Some(TernaryNode(n, t.value.node, f.value.node)), f.value.rest, d, i + 1)
  {
    assert ([Sym(Sym.Ternary)] + ts)[1..] == ts;
    assert ([Sym(Colon)] + us)[1..] == us;
  }

  lemma PrefixStep(op: UnaryOp, ts: seq<Token>, d: nat)
    requires d < 8 && (ParsePart(ts, 7).Ok? ==> Stops(ParsePart(ts, 7).value.rest, 7))
    ensures var r := ParsePart(ts, 7);
      ParsePart([Sym(SymOfUnary(op))] + ts, d)
      == if r.Err? then r else Loop(Some(UnaryNode(op, r.value.node)), r.value.rest, d, 0)
  {
    PrefixRoundTrip(op);
    var all := [Sym(SymOfUnary(op))] + ts;
    assert all[1..] == ts;
    assert ParsePart(all, d) == Loop(None, all, d, 0);
  }

  lemma ParensStep(ts: seq<Token>, rest: seq<Token>, d: nat)
    requires Closed(ParsePart(ts + [Sym(RightParen)] + rest, 1), RightParen, rest)
    ensures var r := ParsePart(ts + [Sym(RightParen)] + rest, 1);
      ParsePart(Parens(ts) + rest, d) == if r.Err? then r else Loop(Some(r.value.node), rest, d, 0)
  {
    assert (Parens(ts) + rest)[1..] == ts + [Sym(RightParen)] + rest;
    assert ([Sym(RightParen)] + rest)[1..] == rest;
  }

  /** The operands of e fit; e's own chain may be one too long. */
  predicate PartsFit(e: Expr) {
    match e
    case UnaryNode(_, x) => ChainsFit(x)
    case BinaryNode(a, _, b) => ChainsFit(a) && ChainsFit(b)
    case TernaryNode(c, t, f) => ChainsFit(c) && ChainsFit(t) && ChainsFit(f)
    case _ => true
  }

  function LeftChain(a: Expr, level: nat): nat {
    if LeftBare(a, level) then Chain(a) else 0
  }

  /** Reading e bare in a frame of depth d: the frame then looks at what follows e, unless a
      chain inside e was too long. */
  ghost predicate Reads(e: Expr, d: nat, rest: seq<Token>) {
    ParsePart(Bare(e) + rest, d)
    == if PartsFit(e) then Loop(Some(Truthy(e)), rest, d, Chain(e)) else Err(LoopLimit)
  }

  lemma {:induction false} BareParses(e: Expr, d: nat, rest: seq<Token>)
    requires d < Strength(e) && Stops(rest, LastDepth(e))
    ensures Reads(e, d, rest)
    decreases e, 1
  {
    match e
    case UnaryNode(op, x) =>
      assert Bare(e) + rest == [Sym(SymOfUnary(op))] + (Print(x, 7) + rest);
      hide ParsePart, Loop, Print, Bare, Stops;
      PrintParses(x, 7, rest);
      PrefixStep(op, Print(x, 7) + rest, d);
    case BinaryNode(_, Member, _) => MemberParses(e, d, rest);
    case BinaryNode(_, Call, b) => if b == NullNode { EmptyCallParses(e, d, rest); } else { CallParses(e, d, rest); }
    case BinaryNode(_, Subscript, _) => SubscriptParses(e, d, rest);
    case BinaryNode(_, _, _) => InfixParses(e, d, rest);
    case TernaryNode(_, _, _) => TernaryParses(e, d, rest);
    case _ =>
      hide Loop;
      AtomRoundTrip(e);
      assert (Bare(e) + rest)[1..] == rest;
  }

  lemma {:induction false} TernaryParses(e: Expr, d: nat, rest: seq<Token>)
    requires e.TernaryNode? && d < TERNARY_LEVEL && Stops(rest, TERNARY_LEVEL)
    ensures Reads(e, d, rest)
    decreases e, 0
  {
    hide ParsePart, Loop, Print, PrintLeft, Bare, Stops, PartsFit, ChainsFit, Truthy, Chain, LeftChain;
    var us := Print(e.f, TERNARY_LEVEL) + rest;
    var colon := [Sym(Colon)] + us;
    var ts := Print(e.t, TERNARY_LEVEL) + colon;
    TernaryTokens(e, rest);
    TernaryParts(e);
    LeftParses(e.c, TERNARY_LEVEL, d, [Sym(Sym.Ternary)] + ts);
    if ChainsFit(e.c) {
      PrintParses(e.t, TERNARY_LEVEL, colon);
      PrintParses(e.f, TERNARY_LEVEL, rest);
      TernaryStep(Truthy(e.c), ts, us, d, LeftChain(e.c, TERNARY_LEVEL));
    }
  }

  lemma TernaryTokens(e: Expr, rest: seq<Token>)
    requires e.TernaryNode?
    ensures var colon := [Sym(Colon)] + (Print(e.f, TERNARY_LEVEL) + rest);
      Bare(e) + rest == PrintLeft(e.c, TERNARY_LEVEL) + ([Sym(Sym.Ternary)] + (Print(e.t, TERNARY_LEVEL) + colon))
        && Stops(colon, TERNARY_LEVEL)
  {
    hide Print, PrintLeft;
  }

  lemma TernaryParts(e: Expr)
    requires e.TernaryNode?
    ensures PartsFit(e) == (ChainsFit(e.c) && ChainsFit(e.t) && ChainsFit(e.f))
    ensures Truthy(e) == TernaryNode(Truthy(e.c), Truthy(e.t), Truthy(e.f))
    ensures Chain(e) == LeftChain(e.c, TERNARY_LEVEL) + 1
    ensures ChainsFit(e.c) ==> LeftChain(e.c, TERNARY_LEVEL) <= LOOP_LIMIT
  {
  }

  lemma {:induction false} MemberParses(e: Expr, d: nat, rest: seq<Token>)
    requires e.BinaryNode? && e.op == Member && d < 8
    ensures Reads(e, d, rest)
    decreases e, 0
  {
    hide ParsePart, Loop, Print, PrintLeft, Bare, PartsFit, ChainsFit, Truthy, Chain, LeftChain, Stops;
    var ts := Print(e.b, 8) + rest;
    MemberTokens(e, rest);
    BinaryParts(e);
    LeftParses(e.a, 8, d, [Sym(Period)] + ts);
    if ChainsFit(e.a) {
      PrintParses(e.b, 8, rest);
      MemberStep(Truthy(e.a), ts, d, LeftChain(e.a, 8));
    }
  }

  lemma {:induction false} EmptyCallParses(e: Expr, d: nat, rest: seq<Token>)
    requires e.BinaryNode? && e.op == Call && e.b == NullNode && d < 8
    ensures Reads(e, d, rest)
    decreases e, 0
  {
    hide ParsePart, Loop, Print, PrintLeft, Bare, PartsFit, ChainsFit, Truthy, Chain, LeftChain, Stops;
    EmptyCallTokens(e, rest);
    BinaryParts(e);
    LeftParses(e.a, 8, d, [Sym(LeftParen), Sym(RightParen)] + rest);
    if ChainsFit(e.a) {
      EmptyCallStep(Truthy(e.a), rest, d, LeftChain(e.a, 8));
    }
  }

  lemma {:induction false} CallParses(e: Expr, d: nat, rest: seq<Token>)
    requires e.BinaryNode? && e.op == Call && e.b != NullNode && d < 8
    ensures Reads(e, d, rest)
    decreases e, 0
  {
    hide ParsePart, Loop, Print, PrintLeft, Bare, PartsFit, ChainsFit, Truthy, Chain, LeftChain, Stops;
    var close := [Sym(RightParen)] + rest;
    var ts := Print(e.b, 1) + close;
    CallTokens(e, rest);
    CallStart(e.b, close);
    BracketsStop(rest);
    BinaryParts(e);
    LeftParses(e.a, 8, d, [Sym(LeftParen)] + ts);
    if ChainsFit(e.a) {
      PrintParses(e.b, 1, close);
      CallStep(Truthy(e.a), ts, rest, d, LeftChain(e.a, 8));
    }
  }

  lemma MemberTokens(e: Expr, rest: seq<Token>)
    requires e.BinaryNode? && e.op == Member
    ensures Bare(e) + rest == PrintLeft(e.a, 8) + ([Sym(Period)] + (Print(e.b, 8) + rest)) && Stops(rest, 8)
  {
    hide PrintLeft, Print;
  }

  lemma EmptyCallTokens(e: Expr, rest: seq<Token>)
    requires e.BinaryNode? && e.op == Call && e.b == NullNode
    ensures Bare(e) + rest == PrintLeft(e.a, 8) + ([Sym(LeftParen), Sym(RightParen)] + rest)
    ensures ChainsFit(e.b) && Truthy(e.b) == NullNode
  {
    hide PrintLeft;
  }

  lemma BracketsStop(rest: seq<Token>)
    ensures Stops([Sym(RightParen)] + rest, 1) && Stops([Sym(RightBracket)] + rest, 1)
  {
  }

  lemma CallStart(b: Expr, close: seq<Token>)
    ensures Print(b, 1) + close != [] && (Print(b, 1) + close)[0] != Sym(RightParen)
  {
    hide Bare;
    PrintStart(b, 1);
  }

  lemma Regroup(a: seq<Token>, x: Token, b: seq<Token>, y: Token, rest: seq<Token>)
    ensures (a + [x] + b + [y]) + rest == a + ([x] + (b + ([y] + rest)))
  {
  }

  lemma CallTokens(e: Expr, rest: seq<Token>)
    requires e.BinaryNode? && e.op == Call && e.b != NullNode
    ensures Bare(e) + rest == PrintLeft(e.a, 8) + ([Sym(LeftParen)] + (Print(e.b, 1) + ([Sym(RightParen)] + rest)))
  {
    hide PrintLeft, Print;
    assert Bare(e) == PrintLeft(e.a, 8) + [Sym(LeftParen)] + Print(e.b, 1) + [Sym(RightParen)];
    Regroup(PrintLeft(e.a, 8), Sym(LeftParen), Print(e.b, 1), Sym(RightParen), rest);
  }

  lemma SubscriptTokens(e: Expr, rest: seq<Token>)
    requires e.BinaryNode? && e.op == Subscript
    ensures Bare(e) + rest == PrintLeft(e.a, 8) + ([Sym(LeftBracket)] + (Print(e.b, 1) + ([Sym(RightBracket)] + rest)))
  {
    hide PrintLeft, Print;
    assert Bare(e) == PrintLeft(e.a, 8) + [Sym(LeftBracket)] + Print(e.b, 1) + [Sym(RightBracket)];
    Regroup(PrintLeft(e.a, 8), Sym(LeftBracket), Print(e.b, 1), Sym(RightBracket), rest);
  }

  lemma BinaryParts(e: Expr)
    requires e.BinaryNode?
    ensures PartsFit(e) == (ChainsFit(e.a) && ChainsFit(e.b))
    ensures Truthy(e) == BinaryNode(Truthy(e.a), e.op, Truthy(e.b))
    ensures Chain(e) == LeftChain(e.a, Level(e.op)) + 1
    ensures ChainsFit(e.a) ==> LeftChain(e.a, Level(e.op)) <= LOOP_LIMIT
  {}

  lemma {:induction false} SubscriptParses(e: Expr, d: nat, rest: seq<Token>)
    requires e.BinaryNode? && e.op == Subscript && d < 8
    ensures Reads(e, d, rest)
    decreases e, 0
  {
    hide ParsePart, Loop, Print, PrintLeft, Bare, PartsFit, ChainsFit, Truthy, Chain, LeftChain, Stops;
    var close := [Sym(RightBracket)] + rest;
    var ts := Print(e.b, 1) + close;
    SubscriptTokens(e, rest);
    BracketsStop(rest);
    BinaryParts(e);
    LeftParses(e.a, 8, d, [Sym(LeftBracket)] + ts);
    if ChainsFit(e.a) {
      PrintParses(e.b, 1, close);
      SubscriptStep(Truthy(e.a), ts, rest, d, LeftChain(e.a, 8));
    }
  }

  lemma {:induction false} InfixParses(e: Expr, d: nat, rest: seq<Token>)
    requires e.BinaryNode? && Level(e.op) < 8 && d < Level(e.op) && Stops(rest, Level(e.op))
    ensures Reads(e, d, rest)
    decreases e, 0
  {
    hide ParsePart, Loop, Print, PrintLeft, Bare, Stops, SymOfBinary, InfixSym, Level, PartsFit, ChainsFit, Truthy,
      Chain, LeftChain;
    var L := Level(e.op);
    var ts := Print(e.b, L) + rest;
    InfixTokens(e, rest);
    LevelRange(e.op);
    SymRoundTrip(e.op);
    BinaryParts(e);
    LeftParses(e.a, L, d, [Sym(SymOfBinary(e.op))] + ts);
    if ChainsFit(e.a) {
      PrintParses(e.b, L, rest);
      InfixStep(Truthy(e.a), e.op, ts, d, LeftChain(e.a, L));
    }
  }

  lemma InfixTokens(e: Expr, rest: seq<Token>)
    requires e.BinaryNode? && Level(e.op) < 8
    ensures Bare(e) + rest
      == PrintLeft(e.a, Level(e.op)) + ([Sym(SymOfBinary(e.op))] + (Print(e.b, Level(e.op)) + rest))
  {
    hide PrintLeft, Print, SymOfBinary;
  }

  /** No printed expression starts with a closing parenthesis. */
  lemma {:induction false} PrintStart(e: Expr, d: nat)
    ensures Print(e, d)[0] != Sym(RightParen)
    decreases e, 1
  {
    BareStart(e);
  }

  lemma {:induction false} BareStart(e: Expr)
    ensures Bare(e)[0] != Sym(RightParen)
    decreases e, 0
  {
    match e
    case BinaryNode(a, _, _) => BareStart(a);
    case TernaryNode(c, _, _) => BareStart(c);
    case _ =>
  }

  /** An operand to the left of an operator that follows it. */
  lemma {:induction false} LeftParses(a: Expr, level: nat, d: nat, rest: seq<Token>)
    requires 2 <= level <= 8 && d < level
    requires rest != [] && !Continues(rest[0], level)
    ensures ParsePart(PrintLeft(a, level) + rest, d)
         == if ChainsFit(a) then Loop(Some(Truthy(a)), rest, d, LeftChain(a, level)) else Err(LoopLimit)
    decreases a, 3
  {
    if LeftBare(a, level) {
      hide ParsePart, Bare;
      BareParses(a, d, rest);
    } else {
      hide ParsePart, Loop, Bare;
      ParensParses(a, d, rest);
    }
  }

  lemma {:induction false} ParensParses(e: Expr, d: nat, rest: seq<Token>)
    ensures ParsePart(Parens(Bare(e)) + rest, d)
         == if ChainsFit(e) then Loop(Some(Truthy(e)), rest, d, 0) else Err(LoopLimit)
    decreases e, 2
  {
    hide ParsePart, Loop, Bare, Strength, Stops, ChainsFit, PartsFit, Chain, Truthy, LastDepth;
    LevelsAboveOne(e);
    ParenStops(rest, LastDepth(e));
    ParenStops(rest, 1);
    WholeFits(e);
    BareParses(e, 1, [Sym(RightParen)] + rest);
    if Chain(e) <= LOOP_LIMIT {
      LoopStops(Truthy(e), [Sym(RightParen)] + rest, 1, Chain(e));
    } else {
      LoopTooLong(Truthy(e), [Sym(RightParen)] + rest, 1, Chain(e));
    }
    assert Bare(e) + [Sym(RightParen)] + rest == Bare(e) + ([Sym(RightParen)] + rest);
    ParensStep(Bare(e), rest, d);
  }

  lemma LoopTooLong(n: Expr, ts: seq<Token>, d: nat, i: nat)
    requires i > LOOP_LIMIT
    ensures Loop(Some(n), ts, d, i) == Err(LoopLimit)
  {
  }

  lemma ParenStops(rest: seq<Token>, depth: nat)
    ensures Stops([Sym(RightParen)] + rest, depth)
  {
  }

  lemma WholeFits(e: Expr)
    ensures ChainsFit(e) == (Chain(e) <= LOOP_LIMIT && PartsFit(e))
  {
  }

  lemma LevelsAboveOne(e: Expr)
    ensures Strength(e) > 1
  {}

  /** What is printed for a depth is what a frame of that depth reads, if every chain fits. */
  lemma {:induction false} PrintParses(e: Expr, d: nat, rest: seq<Token>)
    requires Stops(rest, d)
    ensures ParsePart(Print(e, d) + rest, d)
         == if ChainsFit(e) then Ok(Parsed(Truthy(e), rest)) else Err(LoopLimit)
    decreases e, 3
  {
    hide ParsePart, Bare;
    if d < Strength(e) {
      StopsDeeper(rest, d, LastDepth(e));
      BareParses(e, d, rest);
      if Chain(e) <= LOOP_LIMIT {
        LoopStops(Truthy(e), rest, d, Chain(e));
      }
    } else {
      ParensParses(e, d, rest);
      LoopStops(Truthy(e), rest, d, 0);
    }
  }

  /** The round trip, for every expression: the same tree with boolean literals made true, or the
      loop limit, exactly when some operator chain is longer than it. */
  lemma ParsePrint(e: Expr)
    ensures Parse(Print(e, 0)) == if ChainsFit(e) then Ok(Truthy(e)) else Err(LoopLimit)
  {
    PrintParses(e, 0, []);
    assert Print(e, 0) + [] == Print(e, 0);
  }

  /** The tree itself comes back exactly when it holds no literal false and every chain fits. */
  lemma RoundTrip(e: Expr)
    ensures Parse(Print(e, 0)) == Ok(e) <==> ChainsFit(e) && !HasFalse(e)
  {
    ParsePrint(e);
    TruthyUnchanged(e);
  }

  /** Printing loses nothing else: equal prints come from equal trees. */
  lemma PrintInjective(e: Expr, e': Expr)
    requires ChainsFit(e) && ChainsFit(e') && Print(e, 0) == Print(e', 0)
    ensures Truthy(e) == Truthy(e')
  {
    ParsePrint(e);
    ParsePrint(e');
  }

  /** A literal false is read as true. */
  lemma FalseIsReadAsTrue()
    ensures Parse([Boolean("false")]) == Ok(BooleanNode(true))
  {
    ParsePrint(BooleanNode(false));
  }

  /** A sum of n + 1 operands. */
  function SumOf(n: nat): Expr {
    if n == 0 then IdentNode("a") else BinaryNode(SumOf(n - 1), BinaryOp.Add, IdentNode("a"))
  }

  lemma {:induction false} SumFits(n: nat)
    ensures Chain(SumOf(n)) == n && LeftBare(SumOf(n), 6) && Truthy(SumOf(n)) == SumOf(n)
    ensures ChainsFit(SumOf(n)) <==> n <= 5000
    ensures |Bare(SumOf(n))| == 2 * n + 1
  {
    if n > 0 {
      SumFits(n - 1);
    }
  }

  /** Up to 5000 operators in a row are read, and no more. */
  lemma LongestSum(n: nat)
    ensures var ts := Print(SumOf(n), 0);
      |ts| == 2 * n + 1 && Parse(ts) == if n <= 5000 then Ok(SumOf(n)) else Err(LoopLimit)
  {
    hide Parse, Bare, ChainsFit, Truthy;
    SumFits(n);
    ParsePrint(SumOf(n));
    LevelsAboveOne(SumOf(n));
  }
}

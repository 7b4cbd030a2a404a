/** Which operator binds tighter, and what tree each symbol stands for: the parser on short lists of
    tokens, stated symbol by symbol. */
module ScriptPrecedence {
  import opened ScriptSyntax
  import opened ScriptGrammar
  import opened ScriptRoundTrip
  import opened Results

  /** The classes of infix symbols, the tightest first; 0 for a symbol that is none. */
  function Tightness(s: Sym): nat {
    match s
    case Mul | Quo | Rem | Shl | Shr | And => 6
    case Add | Sub | Or | Xor => 5
    case Equal | NotEqual | Lesser | LesserEqual | Greater | GreaterEqual => 4
    case LogicalAnd => 3
    case LogicalOr => 2
    case Comma => 1
    case _ => 0
  }

  function Node(a: Expr, s: Sym, b: Expr): Expr
    requires Tightness(s) > 0
  {
    match s
    case Mul => BinaryNode(a, BinaryOp.Mul, b)
    case Quo => BinaryNode(a, BinaryOp.Div, b)
    case Rem => BinaryNode(a, BinaryOp.Rem, b)
    case Shl => BinaryNode(a, BinaryOp.Lsh, b)
    case Shr => BinaryNode(a, BinaryOp.Rsh, b)
    case And => BinaryNode(a, BinaryOp.And, b)
    case Add => BinaryNode(a, BinaryOp.Add, b)
    case Sub => BinaryNode(a, BinaryOp.Sub, b)
    case Or => BinaryNode(a, BinaryOp.Or, b)
    case Xor => BinaryNode(a, BinaryOp.Xor, b)
    case Equal => BinaryNode(a, BinaryOp.Equal, b)
    case NotEqual => BinaryNode(a, BinaryOp.NotEqual, b)
    case Lesser => BinaryNode(a, BinaryOp.Lesser, b)
    case LesserEqual => BinaryNode(a, BinaryOp.LesserEqual, b)
    case Greater => BinaryNode(a, BinaryOp.Greater, b)
    case GreaterEqual => BinaryNode(a, BinaryOp.GreaterEqual, b)
    case LogicalAnd => BinaryNode(a, BinaryOp.LogicalAnd, b)
    case LogicalOr => BinaryNode(a, BinaryOp.LogicalOr, b)
    case Comma => BinaryNode(a, BinaryOp.Group, b)
  }

  predicate IsPrefix(s: Sym) {
    s == Sym.Add || s == Sym.Sub || s == Sym.Not || s == Sym.Xor
  }

  function Prefixed(s: Sym, x: Expr): Expr
    requires IsPrefix(s)
  {
    if s == Sym.Add then UnaryNode(Plus, x)
    else if s == Sym.Sub then UnaryNode(Negate, x)
    else if s == Sym.Not then UnaryNode(UnaryOp.Not, x)
    else UnaryNode(BitNot, x)
  }

  /** The token is an expression by itself. */
  predicate Atom(t: Token) {
    match t
    case Sym(s) => s == BooleanKeyword || s == NumberKeyword || s == StringKeyword || s == Sym.Null
    case _ => true
  }

  function Leaf(t: Token): Expr
    requires Atom(t)
  {
    match t
    case Ident(text) => IdentNode(text)
    case Number(text) => NumberNode(text)
    case Boolean(text) => BooleanNode(text != "")
    case Str(text) => StringNode(text)
    case Sym(BooleanKeyword) => KeywordNode(BooleanType)
    case Sym(NumberKeyword) => KeywordNode(NumberType)
    case Sym(StringKeyword) => KeywordNode(StringType)
    case Sym(Null) => NullNode
  }

  // ---- Single steps of the grammar ----

  lemma LeafPart(t: Token, rest: seq<Token>, d: nat)
    requires Atom(t)
    ensures ParsePart([t] + rest, d) == Loop(Some(Leaf(t)), rest, d, 0)
  {
    assert ([t] + rest)[1..] == rest;
    hide Loop;
  }

  /** The tokens behind an operand do not belong to it. */
  lemma LeafAlone(t: Token, rest: seq<Token>, d: nat)
    requires Atom(t) && Stops(rest, d)
    ensures ParsePart([t] + rest, d) == Ok(Parsed(Leaf(t), rest))
  {
    hide ParsePart, Loop, Stops;
    LeafPart(t, rest, d);
    LoopStops(Leaf(t), rest, d, 0);
  }

  /** The depth that the grammar goes to for the right operand of an infix symbol. */
  function DepthOf(s: Sym): (d: nat)
    requires Tightness(s) > 0
    ensures 2 <= d <= 7
  {
    Tightness(s) + 1
  }

  lemma InfixMeaning(s: Sym)
    requires Tightness(s) > 0
    ensures InfixSym(s).Some? && Level(InfixSym(s).value) == DepthOf(s)
    ensures forall a, b :: Node(a, s, b) == BinaryNode(a, InfixSym(s).value, b)
  {
    hide Node;
    forall a, b ensures Node(a, s, b) == BinaryNode(a, InfixSym(s).value, b) {
      NodeMeaning(a, s, b);
    }
  }

  lemma NodeMeaning(a: Expr, s: Sym, b: Expr)
    requires Tightness(s) > 0
    ensures InfixSym(s).Some? && Node(a, s, b) == BinaryNode(a, InfixSym(s).value, b)
  {
    hide Level;
  }

  lemma OperatorStops(s: Sym, rest: seq<Token>, d: nat)
    requires Tightness(s) > 0
    ensures Stops([Sym(s)] + rest, d) <==> DepthOf(s) <= d
  {
    InfixMeaning(s);
  }

  lemma QuestionStops(rest: seq<Token>, d: nat)
    ensures Stops([Sym(Sym.Ternary)] + rest, d) <==> d >= 3
  {
  }

  lemma ColonStops(rest: seq<Token>, d: nat)
    ensures Stops([Sym(Colon)] + rest, d) && Stops([], d)
  {
  }

  /** An infix symbol that is tight enough for the frame. */
  lemma OperatorStep(n: Expr, s: Sym, rest: seq<Token>, d: nat, i: nat)
    requires Tightness(s) > 0 && d < DepthOf(s) && i <= LOOP_LIMIT
    ensures var r := ParsePart(rest, DepthOf(s));
      Loop(Some(n), [Sym(s)] + rest, d, i)
        == if r.Err? then r else Loop(Some(Node(n, s, r.value.node)), r.value.rest, d, i + 1)
  {
    InfixMeaning(s);
    var ts := [Sym(s)] + rest;
    assert ts[1..] == rest;
    hide ParsePart;
  }

  lemma PrefixPart(s: Sym, rest: seq<Token>, d: nat)
    requires IsPrefix(s) && d < 8 && (ParsePart(rest, 7).Ok? ==> Stops(ParsePart(rest, 7).value.rest, 7))
    ensures var r := ParsePart(rest, 7);
      ParsePart([Sym(s)] + rest, d)
        == if r.Err? then r else Loop(Some(Prefixed(s, r.value.node)), r.value.rest, d, 0)
  {
    PrefixStep(Prefixed(s, NullNode).uop, rest, d);
    hide ParsePart, Loop;
  }

  /** One operator and its right operand, at the end of a frame. */
  lemma LastOperator(n: Expr, s: Sym, c: Token, rest: seq<Token>, d: nat, i: nat)
    requires Tightness(s) > 0 && d < DepthOf(s) && i < LOOP_LIMIT && Atom(c) && Stops(rest, d)
    ensures Loop(Some(n), [Sym(s)] + ([c] + rest), d, i) == Ok(Parsed(Node(n, s, Leaf(c)), rest))
  {
    hide ParsePart, Loop, Stops, Node, Leaf;
    OperatorStep(n, s, [c] + rest, d, i);
    StopsDeeper(rest, d, DepthOf(s));
    LeafAlone(c, rest, DepthOf(s));
    LoopStops(Node(n, s, Leaf(c)), rest, d, i + 1);
  }

  /** An operand and an operator behind it, at the end of a frame that may be too deep for it. */
  lemma OperandOperator(b: Token, s: Sym, c: Token, rest: seq<Token>, d: nat)
    requires Atom(b) && Tightness(s) > 0 && Atom(c) && Stops(rest, d)
    ensures var ts := [Sym(s)] + ([c] + rest);
      ParsePart([b] + ts, d)
        == Ok(if d < DepthOf(s) then Parsed(Node(Leaf(b), s, Leaf(c)), rest) else Parsed(Leaf(b), ts))
  {
    hide ParsePart, Loop, Stops, Node, Leaf;
    var ts := [Sym(s)] + ([c] + rest);
    LeafPart(b, ts, d);
    OperatorStops(s, [c] + rest, d);
    if d < DepthOf(s) {
      LastOperator(Leaf(b), s, c, rest, d, 0);
    } else {
      LoopStops(Leaf(b), ts, d, 0);
    }
  }

  /** All tokens are read. */
  lemma Whole(ts: seq<Token>, e: Expr)
    requires ts != [] && ParsePart(ts, 0) == Ok(Parsed(e, []))
    ensures Parse(ts) == Ok(e)
  {
    hide ParsePart;
  }

  lemma Refused(ts: seq<Token>, e: Error)
    requires ts != [] && ParsePart(ts, 0) == Err(e)
    ensures Parse(ts) == Err(e)
  {
    hide ParsePart;
  }

  lemma Four(a: Token, b: Token, c: Token, d: Token)
    ensures [a] + ([b] + ([c] + ([d] + []))) == [a, b, c, d]
  {
  }

  lemma Seven(a: Token, b: Token, c: Token, d: Token, e: Token, f: Token, g: Token)
    ensures [a] + ([b] + ([c] + ([d] + ([e] + ([f] + ([g] + [])))))) == [a, b, c, d, e, f, g]
  {
  }

  lemma Nine(a: Token, b: Token, c: Token, d: Token, e: Token, f: Token, g: Token, h: Token, i: Token)
    ensures [a] + ([b] + ([c] + ([d] + ([e] + ([f] + ([g] + ([h] + ([i] + []))))))))
      == [a, b, c, d, e, f, g, h, i]
  {
  }

  // ---- Infix symbols ----

  /** A single token, and a single operator. */
  lemma Single(a: Token)
    requires Atom(a)
    ensures Parse([a]) == Ok(Leaf(a))
  {
    hide ParsePart, Stops, Leaf;
    ColonStops([], 0);
    LeafAlone(a, [], 0);
    assert [a] + [] == [a];
  }

  lemma Pair(a: Token, s: Sym, b: Token)
    requires Atom(a) && Tightness(s) > 0 && Atom(b)
    ensures Parse([a, Sym(s), b]) == Ok(Node(Leaf(a), s, Leaf(b)))
  {
    hide ParsePart, Stops, Leaf, Node;
    ColonStops([], 0);
    OperandOperator(a, s, b, [], 0);
    assert [a] + ([Sym(s)] + ([b] + [])) == [a, Sym(s), b];
  }

  /** Of two operators the second takes the operand between them exactly if it is of a tighter class. */
  lemma Precedence(a: Token, s: Sym, b: Token, t: Sym, c: Token)
    requires Atom(a) && Tightness(s) > 0 && Atom(b) && Tightness(t) > 0 && Atom(c)
    ensures Parse([a, Sym(s), b, Sym(t), c])
      == Ok(if Tightness(t) > Tightness(s) then Node(Leaf(a), s, Node(Leaf(b), t, Leaf(c)))
            else Node(Node(Leaf(a), s, Leaf(b)), t, Leaf(c)))
  {
    hide ParsePart, Loop, Stops, Leaf, Node;
    var last := [Sym(t)] + ([c] + []);
    var all := [a] + ([Sym(s)] + ([b] + last));
    assert all == [a, Sym(s), b, Sym(t), c];
    ColonStops([], 0);
    ColonStops([], DepthOf(s));
    LeafPart(a, [Sym(s)] + ([b] + last), 0);
    OperatorStep(Leaf(a), s, [b] + last, 0, 0);
    OperandOperator(b, t, c, [], DepthOf(s));
    if Tightness(t) > Tightness(s) {
      LoopStops(Node(Leaf(a), s, Node(Leaf(b), t, Leaf(c))), [], 0, 1);
    } else {
      LastOperator(Node(Leaf(a), s, Leaf(b)), t, c, [], 0, 1);
    }
  }

  // ---- The conditional ----

  lemma QuestionStep(n: Expr, ts: seq<Token>, us: seq<Token>, d: nat, i: nat)
    requires d < 3 && i <= LOOP_LIMIT && ParsePart(ts, 3).Ok? && ParsePart(ts, 3).value.rest == [Sym(Colon)] + us
    requires ParsePart(us, 3).Ok?
    ensures var t, f := ParsePart(ts, 3).value, ParsePart(us, 3).value;
      Loop(Some(n), [Sym(Sym.Ternary)] + ts, d, i) == Loop(Some(TernaryNode(n, t.node, f.node)), f.rest, d, i + 1)
  {
    hide ParsePart, Loop;
    TernaryStep(n, ts, us, d, i);
  }

  /** What stands between the question mark and the next token that is not part of it has to be followed
      by a colon. */
  lemma QuestionFails(n: Expr, ts: seq<Token>, d: nat, i: nat)
    requires d < 3 && i <= LOOP_LIMIT && ParsePart(ts, 3).Ok?
    requires ParsePart(ts, 3).value.rest != [] && ParsePart(ts, 3).value.rest[0] != Sym(Colon)
    ensures Loop(Some(n), [Sym(Sym.Ternary)] + ts, d, i) == Err(UnexpectedToken)
  {
    var all := [Sym(Sym.Ternary)] + ts;
    assert all[1..] == ts;
    hide ParsePart;
  }

  function Question(t: Token, f: Token, rest: seq<Token>): seq<Token> {
    [Sym(Sym.Ternary)] + ([t] + ([Sym(Colon)] + ([f] + rest)))
  }

  lemma Conditional(n: Expr, t: Token, f: Token, rest: seq<Token>, d: nat, i: nat)
    requires d < 3 && i <= LOOP_LIMIT && Atom(t) && Atom(f) && Stops(rest, 3)
    ensures Loop(Some(n), Question(t, f, rest), d, i) == Loop(Some(TernaryNode(n, Leaf(t), Leaf(f))), rest, d, i + 1)
  {
    hide ParsePart, Loop, Stops, Leaf;
    ColonStops([f] + rest, 3);
    LeafAlone(t, [Sym(Colon)] + ([f] + rest), 3);
    LeafAlone(f, rest, 3);
    QuestionStep(n, [t] + ([Sym(Colon)] + ([f] + rest)), [f] + rest, d, i);
  }

  /** Every infix symbol but the comma takes the condition's place whole. */
  lemma OperatorThenConditional(a: Token, s: Sym, b: Token, t: Token, f: Token)
    requires Atom(a) && Tightness(s) > 0 && Atom(b) && Atom(t) && Atom(f)
    ensures Parse([a, Sym(s), b, Sym(Sym.Ternary), t, Sym(Colon), f])
      == Ok(if s == Comma then Node(Leaf(a), s, TernaryNode(Leaf(b), Leaf(t), Leaf(f)))
            else TernaryNode(Node(Leaf(a), s, Leaf(b)), Leaf(t), Leaf(f)))
  {
    hide ParsePart, Loop, Stops, Leaf, Node;
    var q := Question(t, f, []);
    assert [a] + ([Sym(s)] + ([b] + q)) == [a, Sym(s), b, Sym(Sym.Ternary), t, Sym(Colon), f];
    ColonStops([], 0);
    ColonStops([], 2);
    ColonStops([], 3);
    LeafPart(a, [Sym(s)] + ([b] + q), 0);
    OperatorStep(Leaf(a), s, [b] + q, 0, 0);
    if s == Comma {
      LeafPart(b, q, 2);
      Conditional(Leaf(b), t, f, [], 2, 0);
      LoopStops(TernaryNode(Leaf(b), Leaf(t), Leaf(f)), [], 2, 1);
      LoopStops(Node(Leaf(a), s, TernaryNode(Leaf(b), Leaf(t), Leaf(f))), [], 0, 1);
    } else {
      QuestionStops([t] + ([Sym(Colon)] + ([f] + [])), DepthOf(s));
      LeafAlone(b, q, DepthOf(s));
      Conditional(Node(Leaf(a), s, Leaf(b)), t, f, [], 0, 1);
      LoopStops(TernaryNode(Node(Leaf(a), s, Leaf(b)), Leaf(t), Leaf(f)), [], 0, 2);
    }
  }

  /** The last operand of a conditional takes the operators that are tighter than `||`. */
  lemma ConditionalThenOperator(a: Token, t: Token, f: Token, s: Sym, b: Token)
    requires Atom(a) && Atom(t) && Atom(f) && Tightness(s) > 0 && Atom(b)
    ensures Parse([a, Sym(Sym.Ternary), t, Sym(Colon), f, Sym(s), b])
      == Ok(if Tightness(s) > Tightness(Sym.LogicalOr) then TernaryNode(Leaf(a), Leaf(t), Node(Leaf(f), s, Leaf(b)))
            else Node(TernaryNode(Leaf(a), Leaf(t), Leaf(f)), s, Leaf(b)))
  {
    hide Parse, ParsePart, Loop, Stops, Leaf, Node, Atom;
    var us := [f] + ([Sym(s)] + ([b] + []));
    var ts := [t] + ([Sym(Colon)] + us);
    var all := [a] + ([Sym(Sym.Ternary)] + ts);
    Seven(a, Sym(Sym.Ternary), t, Sym(Colon), f, Sym(s), b);
    ColonStops([], 0);
    ColonStops([], 3);
    ColonStops(us, 3);
    LeafPart(a, [Sym(Sym.Ternary)] + ts, 0);
    LeafAlone(t, [Sym(Colon)] + us, 3);
    OperandOperator(f, s, b, [], 3);
    QuestionStep(Leaf(a), ts, us, 0, 0);
    if Tightness(s) > Tightness(Sym.LogicalOr) {
      var e := TernaryNode(Leaf(a), Leaf(t), Node(Leaf(f), s, Leaf(b)));
      LoopStops(e, [], 0, 1);
      Whole(all, e);
    } else {
      LastOperator(TernaryNode(Leaf(a), Leaf(t), Leaf(f)), s, b, [], 0, 1);
      Whole(all, Node(TernaryNode(Leaf(a), Leaf(t), Leaf(f)), s, Leaf(b)));
    }
  }

  /** So does the middle one; any other operator there is an error. */
  lemma OperatorInConditional(a: Token, t: Token, s: Sym, b: Token, f: Token)
    requires Atom(a) && Atom(t) && Atom(f) && Tightness(s) > 0 && Atom(b)
    ensures Parse([a, Sym(Sym.Ternary), t, Sym(s), b, Sym(Colon), f])
      == if Tightness(s) > Tightness(Sym.LogicalOr)
         then Ok(TernaryNode(Leaf(a), Node(Leaf(t), s, Leaf(b)), Leaf(f))) else Err(UnexpectedToken)
  {
    hide Parse, ParsePart, Loop, Stops, Leaf, Node, Atom;
    var rest := [Sym(Colon)] + ([f] + []);
    var ts := [t] + ([Sym(s)] + ([b] + rest));
    var all := [a] + ([Sym(Sym.Ternary)] + ts);
    Seven(a, Sym(Sym.Ternary), t, Sym(s), b, Sym(Colon), f);
    ColonStops([], 0);
    ColonStops([], 3);
    ColonStops([f] + [], 3);
    LeafPart(a, [Sym(Sym.Ternary)] + ts, 0);
    OperandOperator(t, s, b, rest, 3);
    if Tightness(s) > Tightness(Sym.LogicalOr) {
      LeafAlone(f, [], 3);
      QuestionStep(Leaf(a), ts, [f] + [], 0, 0);
      var e := TernaryNode(Leaf(a), Node(Leaf(t), s, Leaf(b)), Leaf(f));
      LoopStops(e, [], 0, 1);
      Whole(all, e);
    } else {
      QuestionFails(Leaf(a), ts, 0, 0);
      Refused(all, UnexpectedToken);
    }
  }

  /** A conditional behind another one has it for its condition; between the marks it is an error. */
  lemma TwoConditionals(a: Token, b: Token, c: Token, d: Token, e: Token)
    requires Atom(a) && Atom(b) && Atom(c) && Atom(d) && Atom(e)
    ensures Parse([a, Sym(Sym.Ternary), b, Sym(Colon), c, Sym(Sym.Ternary), d, Sym(Colon), e])
      == Ok(TernaryNode(TernaryNode(Leaf(a), Leaf(b), Leaf(c)), Leaf(d), Leaf(e)))
    ensures Parse([a, Sym(Sym.Ternary), b, Sym(Sym.Ternary), c, Sym(Colon), d, Sym(Colon), e]) == Err(UnexpectedToken)
  {
    hide Parse, ParsePart, Loop, Stops, Leaf, Atom;
    ColonStops([], 0);
    ColonStops([], 3);
    var q := Question(d, e, []);
    QuestionStops([d] + ([Sym(Colon)] + ([e] + [])), 3);
    LeafPart(a, Question(b, c, q), 0);
    Conditional(Leaf(a), b, c, q, 0, 0);
    Conditional(TernaryNode(Leaf(a), Leaf(b), Leaf(c)), d, e, [], 0, 1);
    var tree := TernaryNode(TernaryNode(Leaf(a), Leaf(b), Leaf(c)), Leaf(d), Leaf(e));
    LoopStops(tree, [], 0, 2);
    Nine(a, Sym(Sym.Ternary), b, Sym(Colon), c, Sym(Sym.Ternary), d, Sym(Colon), e);
    Whole([a] + Question(b, c, q), tree);
    NestedConditional(a, b, c, d, e);
  }

  lemma NestedConditional(a: Token, b: Token, c: Token, d: Token, e: Token)
    requires Atom(a) && Atom(b) && Atom(c) && Atom(d) && Atom(e)
    ensures Parse([a, Sym(Sym.Ternary), b, Sym(Sym.Ternary), c, Sym(Colon), d, Sym(Colon), e]) == Err(UnexpectedToken)
  {
    hide Parse, ParsePart, Loop, Stops, Leaf, Atom;
    var last := [Sym(Colon)] + ([e] + []);
    var q := Question(c, d, last);
    QuestionStops([c] + ([Sym(Colon)] + ([d] + last)), 3);
    LeafPart(a, [Sym(Sym.Ternary)] + ([b] + q), 0);
    LeafAlone(b, q, 3);
    QuestionFails(Leaf(a), [b] + q, 0, 0);
    Nine(a, Sym(Sym.Ternary), b, Sym(Sym.Ternary), c, Sym(Colon), d, Sym(Colon), e);
    Refused([a] + ([Sym(Sym.Ternary)] + ([b] + q)), UnexpectedToken);
  }

  // ---- Prefix operators, calls, subscripts and members ----

  /** A prefix operator takes its operand before any infix one does. */
  lemma PrefixFirst(p: Sym, a: Token, s: Sym, b: Token)
    requires IsPrefix(p) && Atom(a) && Tightness(s) > 0 && Atom(b)
    ensures Parse([Sym(p), a, Sym(s), b]) == Ok(Node(Prefixed(p, Leaf(a)), s, Leaf(b)))
    ensures Parse([a, Sym(s), Sym(p), b]) == Ok(Node(Leaf(a), s, Prefixed(p, Leaf(b))))
  {
    hide Parse;
    PrefixInFront(p, a, s, b);
    PrefixBehind(p, a, s, b);
  }

  lemma PrefixInFront(p: Sym, a: Token, s: Sym, b: Token)
    requires IsPrefix(p) && Atom(a) && Tightness(s) > 0 && Atom(b)
    ensures Parse([Sym(p), a, Sym(s), b]) == Ok(Node(Prefixed(p, Leaf(a)), s, Leaf(b)))
  {
    hide Parse, ParsePart, Loop, Stops, Leaf, Node, Prefixed, Atom, IsPrefix, Tightness;
    ColonStops([], 0);
    var ts := [Sym(s)] + ([b] + []);
    OperatorStops(s, [b] + [], 7);
    LeafAlone(a, ts, 7);
    PrefixPart(p, [a] + ts, 0);
    LastOperator(Prefixed(p, Leaf(a)), s, b, [], 0, 0);
    Four(Sym(p), a, Sym(s), b);
    Whole([Sym(p)] + ([a] + ts), Node(Prefixed(p, Leaf(a)), s, Leaf(b)));
  }

  lemma PrefixBehind(p: Sym, a: Token, s: Sym, b: Token)
    requires IsPrefix(p) && Atom(a) && Tightness(s) > 0 && Atom(b)
    ensures Parse([a, Sym(s), Sym(p), b]) == Ok(Node(Leaf(a), s, Prefixed(p, Leaf(b))))
  {
    hide Parse, ParsePart, Loop, Stops, Leaf, Node, Prefixed, Atom, IsPrefix, Tightness;
    ColonStops([], 0);
    ColonStops([], 7);
    ColonStops([], DepthOf(s));
    var us := [Sym(p)] + ([b] + []);
    LeafPart(a, [Sym(s)] + us, 0);
    OperatorStep(Leaf(a), s, us, 0, 0);
    LeafAlone(b, [], 7);
    PrefixPart(p, [b] + [], DepthOf(s));
    LoopStops(Prefixed(p, Leaf(b)), [], DepthOf(s), 0);
    var e := Node(Leaf(a), s, Prefixed(p, Leaf(b)));
    LoopStops(e, [], 0, 1);
    Four(a, Sym(s), Sym(p), b);
    Whole([a] + ([Sym(s)] + us), e);
  }

  datatype Suffix = Dot(name: Token) | NoArgument | Argument(arg: Token) | Index(at: Token) {
    predicate Ok() {
      match this
      case Dot(t) => Atom(t)
      case NoArgument => true
      case Argument(t) => Atom(t)
      case Index(t) => Atom(t)
    }

    function Tokens(): seq<Token> {
      match this
      case Dot(t) => [Sym(Period), t]
      case NoArgument => [Sym(LeftParen), Sym(RightParen)]
      case Argument(t) => [Sym(LeftParen), t, Sym(RightParen)]
      case Index(t) => [Sym(LeftBracket), t, Sym(RightBracket)]
    }

    function On(x: Expr): Expr
      requires Ok()
    {
      match this
      case Dot(t) => BinaryNode(x, Member, Leaf(t))
      case NoArgument => BinaryNode(x, Call, NullNode)
      case Argument(t) => BinaryNode(x, Call, Leaf(t))
      case Index(t) => BinaryNode(x, Subscript, Leaf(t))
    }
  }

  lemma SuffixStep(n: Expr, x: Suffix, rest: seq<Token>, d: nat, i: nat)
    requires x.Ok() && d < 8 && i <= LOOP_LIMIT
    ensures Loop(Some(n), x.Tokens() + rest, d, i) == Loop(Some(x.On(n)), rest, d, i + 1)
  {
    hide ParsePart, Loop, Leaf, Atom;
    match x
    case Dot(t) =>
      LeafAlone(t, rest, 8);
      MemberStep(n, [t] + rest, d, i);
      assert x.Tokens() + rest == [Sym(Period)] + ([t] + rest);
    case NoArgument =>
      EmptyCallStep(n, rest, d, i);
    case Argument(t) =>
      ArgumentStep(n, t, rest, d, i);
    case Index(t) =>
      IndexStep(n, t, rest, d, i);
  }

  lemma ArgumentStep(n: Expr, t: Token, rest: seq<Token>, d: nat, i: nat)
    requires Atom(t) && d < 8 && i <= LOOP_LIMIT
    ensures Loop(Some(n), [Sym(LeftParen), t, Sym(RightParen)] + rest, d, i)
      == Loop(Some(BinaryNode(n, Call, Leaf(t))), rest, d, i + 1)
  {
    hide ParsePart, Loop, Leaf, Atom;
    BracketsStop(rest);
    LeafAlone(t, [Sym(RightParen)] + rest, 1);
    AtomOpens(t);
    CallStep(n, [t] + ([Sym(RightParen)] + rest), rest, d, i);
    Three(Sym(LeftParen), t, Sym(RightParen), rest);
  }

  lemma IndexStep(n: Expr, t: Token, rest: seq<Token>, d: nat, i: nat)
    requires Atom(t) && d < 8 && i <= LOOP_LIMIT
    ensures Loop(Some(n), [Sym(LeftBracket), t, Sym(RightBracket)] + rest, d, i)
      == Loop(Some(BinaryNode(n, Subscript, Leaf(t))), rest, d, i + 1)
  {
    hide ParsePart, Loop, Leaf, Atom;
    BracketsStop(rest);
    LeafAlone(t, [Sym(RightBracket)] + rest, 1);
    SubscriptStep(n, [t] + ([Sym(RightBracket)] + rest), rest, d, i);
    Three(Sym(LeftBracket), t, Sym(RightBracket), rest);
  }

  lemma AtomOpens(t: Token)
    requires Atom(t)
    ensures t != Sym(RightParen)
  {
  }

  lemma Three(a: Token, b: Token, c: Token, rest: seq<Token>)
    ensures [a, b, c] + rest == [a] + ([b] + ([c] + rest))
  {
  }

  /** Calls, subscripts and members come before prefix and infix operators, and from left to right. */
  lemma SuffixFirst(a: Token, s: Sym, p: Sym, b: Token, x: Suffix, y: Suffix)
    requires Atom(a) && Tightness(s) > 0 && IsPrefix(p) && Atom(b) && x.Ok() && y.Ok()
    ensures Parse([a, Sym(s), b] + x.Tokens()) == Ok(Node(Leaf(a), s, x.On(Leaf(b))))
    ensures Parse([Sym(p), a] + x.Tokens()) == Ok(Prefixed(p, x.On(Leaf(a))))
    ensures Parse([a] + x.Tokens() + y.Tokens()) == Ok(y.On(x.On(Leaf(a))))
  {
    hide Parse;
    SuffixBehindOperator(a, s, b, x);
    SuffixBehindPrefix(p, a, x);
    TwoSuffixes(a, x, y);
  }

  lemma SuffixBehindOperator(a: Token, s: Sym, b: Token, x: Suffix)
    requires Atom(a) && Tightness(s) > 0 && Atom(b) && x.Ok()
    ensures Parse([a, Sym(s), b] + x.Tokens()) == Ok(Node(Leaf(a), s, x.On(Leaf(b))))
  {
    hide ParsePart, Loop, Stops, Leaf, Node;
    ColonStops([], 0);
    var xs := x.Tokens() + [];
    LeafPart(a, [Sym(s)] + ([b] + xs), 0);
    OperatorStep(Leaf(a), s, [b] + xs, 0, 0);
    SuffixOperand(b, x, DepthOf(s));
    LoopStops(Node(Leaf(a), s, x.On(Leaf(b))), [], 0, 1);
    assert [a] + ([Sym(s)] + ([b] + xs)) == [a, Sym(s), b] + x.Tokens();
  }

  lemma SuffixBehindPrefix(p: Sym, a: Token, x: Suffix)
    requires IsPrefix(p) && Atom(a) && x.Ok()
    ensures Parse([Sym(p), a] + x.Tokens()) == Ok(Prefixed(p, x.On(Leaf(a))))
  {
    hide ParsePart, Loop, Stops, Leaf, Prefixed;
    ColonStops([], 0);
    ColonStops([], 7);
    var xs := x.Tokens() + [];
    SuffixOperand(a, x, 7);
    PrefixPart(p, [a] + xs, 0);
    LoopStops(Prefixed(p, x.On(Leaf(a))), [], 0, 0);
    assert [Sym(p)] + ([a] + xs) == [Sym(p), a] + x.Tokens();
  }

  lemma SuffixOperand(b: Token, x: Suffix, d: nat)
    requires Atom(b) && x.Ok() && d < 8
    ensures ParsePart([b] + (x.Tokens() + []), d) == Ok(Parsed(x.On(Leaf(b)), []))
  {
    hide ParsePart, Loop, Stops, Leaf;
    ColonStops([], d);
    LeafPart(b, x.Tokens() + [], d);
    SuffixStep(Leaf(b), x, [], d, 0);
    LoopStops(x.On(Leaf(b)), [], d, 1);
  }

  lemma TwoSuffixes(a: Token, x: Suffix, y: Suffix)
    requires Atom(a) && x.Ok() && y.Ok()
    ensures Parse([a] + x.Tokens() + y.Tokens()) == Ok(y.On(x.On(Leaf(a))))
  {
    hide ParsePart, Loop, Stops, Leaf;
    ColonStops([], 0);
    LeafPart(a, x.Tokens() + (y.Tokens() + []), 0);
    SuffixStep(Leaf(a), x, y.Tokens() + [], 0, 0);
    SuffixStep(x.On(Leaf(a)), y, [], 0, 1);
    LoopStops(y.On(x.On(Leaf(a))), [], 0, 2);
    assert [a] + (x.Tokens() + (y.Tokens() + [])) == [a] + x.Tokens() + y.Tokens();
  }

  /** Parentheses come before everything else. */
  lemma ParenthesesFirst(a: Token, s: Sym, b: Token, t: Sym, c: Token)
    requires Atom(a) && Tightness(s) > 0 && Atom(b) && Tightness(t) > 0 && Atom(c)
    ensures Parse([Sym(LeftParen), a, Sym(s), b, Sym(RightParen), Sym(t), c])
      == Ok(Node(Node(Leaf(a), s, Leaf(b)), t, Leaf(c)))
  {
    hide ParsePart, Loop, Stops, Leaf, Node, Parens, Tightness;
    var last := [Sym(t)] + ([c] + []);
    var inner := [a] + ([Sym(s)] + [b]);
    ColonStops([], 0);
    BracketsStop(last);
    OperandOperator(a, s, b, [Sym(RightParen)] + last, 1);
    ParenTokens(a, s, b, t, c);
    ParensStep(inner, last, 0);
    LastOperator(Node(Leaf(a), s, Leaf(b)), t, c, [], 0, 0);
  }

  lemma ParenTokens(a: Token, s: Sym, b: Token, t: Sym, c: Token)
    ensures var inner, last := [a] + ([Sym(s)] + [b]), [Sym(t)] + ([c] + []);
      && inner + [Sym(RightParen)] + last == [a] + ([Sym(s)] + ([b] + ([Sym(RightParen)] + last)))
      && Parens(inner) + last == [Sym(LeftParen), a, Sym(s), b, Sym(RightParen), Sym(t), c]
  {
  }
}

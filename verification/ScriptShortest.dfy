/** No list of tokens that is parsed to a tree is shorter than the one the printer writes for it. */
module ScriptShortest {
  import opened ScriptSyntax
  import opened ScriptGrammar
  import opened ScriptRoundTrip
  import opened Results

  /** What a frame of depth d knows of the node it holds, read from c tokens with ts behind them: it was
      in parentheses, or it can stand at this depth and nothing in ts would have gone into it. */
  predicate Holds(n: Expr, c: nat, ts: seq<Token>, d: nat) {
    c >= |Bare(n)| + 2 || (c >= |Bare(n)| && d < Strength(n) && Stops(ts, LastDepth(n)))
  }

  /** A frame of depth d that was given ts has ended well. */
  predicate Ends(r: Result<Parsed, Error>, c: nat, ts: seq<Token>, d: nat) {
    r.Ok? ==>
      c + |ts| >= |r.value.rest| + |Print(r.value.node, d)| && Stops(r.value.rest, d)
  }

  predicate Postfix(ts: seq<Token>) {
    Next(ts, Period) || Next(ts, LeftParen) || Next(ts, LeftBracket)
  }

  lemma {:induction false} PartEnds(ts: seq<Token>, d: nat)
    requires d <= 8
    ensures Ends(ParsePart(ts, d), 0, ts, d)
    decreases |ts|, 3
  {
    hide Loop, Print, Ends;
    if ts != [] && AtomOf(ts[0]).Some? {
      AtomHolds(AtomOf(ts[0]).value, ts, d);
      LoopEnds(AtomOf(ts[0]).value, ts[1..], d, 0, 1);
      EndsMore(Loop(Some(AtomOf(ts[0]).value), ts[1..], d, 0), 1, ts[1..], 0, ts, d);
    } else if Next(ts, LeftParen) {
      PartEnds(ts[1..], 1);
      var inner := ParsePart(ts[1..], 1);
      if inner.Ok? && Next(inner.value.rest, RightParen) {
        var rest := inner.value.rest[1..];
        InParens(inner, ts, d);
        LoopEnds(inner.value.node, rest, d, 0, |ts| - |rest|);
        EndsMore(Loop(Some(inner.value.node), rest, d, 0), |ts| - |rest|, rest, 0, ts, d);
      } else {
        EndsBadly(ParsePart(ts, d), 0, ts, d);
      }
    } else {
      NoneEnds(ts, d);
    }
  }

  lemma EndsBadly(r: Result<Parsed, Error>, c: nat, ts: seq<Token>, d: nat)
    requires r.Err?
    ensures Ends(r, c, ts, d)
  {
  }

  /** Only the number of tokens read so far and to come counts. */
  lemma EndsMore(r: Result<Parsed, Error>, c: nat, ts: seq<Token>, c': nat, ts': seq<Token>, d: nat)
    requires Ends(r, c, ts, d) && c + |ts| <= c' + |ts'|
    ensures Ends(r, c', ts', d)
  {
  }

  lemma AtomHolds(n: Expr, ts: seq<Token>, d: nat)
    requires ts != [] && AtomOf(ts[0]) == Some(n) && d <= 8
    ensures Holds(n, 1, ts[1..], d)
  {
  }

  lemma InParens(inner: Result<Parsed, Error>, ts: seq<Token>, d: nat)
    requires ts != [] && Ends(inner, 0, ts[1..], 1) && inner.Ok? && Next(inner.value.rest, RightParen)
    ensures |ts| >= |inner.value.rest[1..]|
    ensures Holds(inner.value.node, |ts| - |inner.value.rest[1..]|, inner.value.rest[1..], d)
  {
    hide Bare;
    LevelsAboveOne(inner.value.node);
  }

  /** A frame that holds nothing yet: a prefix operator, or an error. */
  lemma {:induction false} NoneEnds(ts: seq<Token>, d: nat)
    requires d <= 8
    ensures Ends(Loop(None, ts, d, 0), 0, ts, d)
    decreases |ts|, 2
  {
    if d < 8 && ts != [] && PrefixOf(ts[0]).Some? {
      PartEnds(ts[1..], 7);
      var x := ParsePart(ts[1..], 7);
      if x.Ok? {
        var n := UnaryNode(PrefixOf(ts[0]).value, x.value.node);
        PrefixHolds(ts, x, d);
        InfixEnds(n, x.value.rest, d, 0, |ts| - |x.value.rest|);
      }
    }
  }

  lemma PrefixHolds(ts: seq<Token>, x: Result<Parsed, Error>, d: nat)
    requires ts != [] && PrefixOf(ts[0]).Some? && d < 8 && x.Ok? && Ends(x, 0, ts[1..], 7)
    ensures |ts| >= |x.value.rest| && !Postfix(x.value.rest)
    ensures Holds(UnaryNode(PrefixOf(ts[0]).value, x.value.node), |ts| - |x.value.rest|, x.value.rest, d)
  {
  }

  lemma {:induction false} LoopEnds(n: Expr, ts: seq<Token>, d: nat, i: nat, c: nat)
    requires d <= 8 && Holds(n, c, ts, d)
    ensures Ends(Loop(Some(n), ts, d, i), c, ts, d)
    decreases |ts|, 2
  {
    hide Holds, Ends, Print, Bare;
    if i > LOOP_LIMIT {
      EndsBadly(Loop(Some(n), ts, d, i), c, ts, d);
    } else if d >= 8 {
      NodeEnds(n, ts, d, c);
    } else if Postfix(ts) {
      PostfixEnds(n, ts, d, i, c);
    } else {
      InfixEnds(n, ts, d, i, c);
    }
  }

  /** The frame returns the node it holds. */
  lemma NodeEnds(n: Expr, ts: seq<Token>, d: nat, c: nat)
    requires Holds(n, c, ts, d) && Stops(ts, d)
    ensures Ends(Ok(Parsed(n, ts)), c, ts, d)
  {
    hide Bare;
  }

  /** The node is printed to the left of the operator that follows it in no more than its tokens. */
  lemma LeftFits(n: Expr, ts: seq<Token>, d: nat, c: nat, level: nat)
    requires Holds(n, c, ts, d) && 2 <= level <= 8
    requires ts != [] && forall k: nat :: k < level ==> Continues(ts[0], k)
    ensures c >= |PrintLeft(n, level)|
  {
    hide Bare;
  }

  lemma {:induction false} PostfixEnds(n: Expr, ts: seq<Token>, d: nat, i: nat, c: nat)
    requires d < 8 && i <= LOOP_LIMIT && Holds(n, c, ts, d) && Postfix(ts)
    ensures Ends(Loop(Some(n), ts, d, i), c, ts, d)
    decreases |ts|, 1
  {
    hide Holds, Ends, Print, PrintLeft, Bare, Stops, ParsePart, Loop, LeftBare, Strength, Expect;
    LeftFits(n, ts, d, c, 8);
    if Next(ts, LeftParen) && Next(ts[1..], RightParen) {
      EmptyCallLoop(n, ts, d, i);
      EmptyCallHolds(n, ts[2..], d, c);
      LoopEnds(BinaryNode(n, Call, NullNode), ts[2..], d, i + 1, c + 2);
      EndsMore(Loop(Some(n), ts, d, i), c + 2, ts[2..], c, ts, d);
    } else {
      var op := if Next(ts, Period) then Member else if Next(ts, LeftParen) then Call else Subscript;
      PartEnds(ts[1..], if op == Member then 8 else 1);
      PostfixStep(n, op, ts, d, i);
      BehindShorter(op, ts[1..], if op == Member then 8 else 1);
      var b := ParsePart(ts[1..], if op == Member then 8 else 1);
      var rest := Behind(op, b);
      if rest.Some? {
        PostfixHolds(n, op, ts, d, c, b, rest.value);
        LoopEnds(BinaryNode(n, op, b.value.node), rest.value, d, i + 1, c + |ts| - |rest.value|);
        EndsMore(Loop(Some(n), ts, d, i), c + |ts| - |rest.value|, rest.value, c, ts, d);
      } else {
        EndsBadly(Loop(Some(n), ts, d, i), c, ts, d);
      }
    }
  }

  /** What is left behind the operand of a postfix operator and its closing token. */
  function Behind(op: BinaryOp, b: Result<Parsed, Error>): Option<seq<Token>> {
    if b.Err? then None
    else if op == Member then Some(b.value.rest)
    else if Next(b.value.rest, if op == Call then RightParen else RightBracket) then Some(b.value.rest[1..])
    else None
  }

  lemma BehindShorter(op: BinaryOp, ts: seq<Token>, depth: nat)
    ensures Behind(op, ParsePart(ts, depth)).Some? ==> |Behind(op, ParsePart(ts, depth)).value| < |ts|
  {
    hide Loop;
  }

  lemma EmptyCallLoop(n: Expr, ts: seq<Token>, d: nat, i: nat)
    requires d < 8 && i <= LOOP_LIMIT && Next(ts, LeftParen) && Next(ts[1..], RightParen)
    ensures Loop(Some(n), ts, d, i) == Loop(Some(BinaryNode(n, Call, NullNode)), ts[2..], d, i + 1)
  {
  }

  /** An operator behind its operand that is not the empty call. */
  lemma PostfixStep(n: Expr, op: BinaryOp, ts: seq<Token>, d: nat, i: nat)
    requires d < 8 && i <= LOOP_LIMIT && !(Next(ts, LeftParen) && Next(ts[1..], RightParen))
    requires (op == Member && Next(ts, Period)) || (op == Call && Next(ts, LeftParen))
      || (op == Subscript && Next(ts, LeftBracket))
    ensures var b := ParsePart(ts[1..], if op == Member then 8 else 1);
      if Behind(op, b).Some?
        then Loop(Some(n), ts, d, i) == Loop(Some(BinaryNode(n, op, b.value.node)), Behind(op, b).value, d, i + 1)
      else Loop(Some(n), ts, d, i).Err?
  {
    hide ParsePart;
  }

  lemma EmptyCallHolds(n: Expr, rest: seq<Token>, d: nat, c: nat)
    requires d < 8 && c >= |PrintLeft(n, 8)|
    ensures Holds(BinaryNode(n, Call, NullNode), c + 2, rest, d)
  {
    hide PrintLeft;
  }

  lemma PostfixHolds(n: Expr, op: BinaryOp, ts: seq<Token>, d: nat, c: nat, b: Result<Parsed, Error>, rest: seq<Token>)
    requires ts != [] && Level(op) == 8 && d < 8 && c >= |PrintLeft(n, 8)|
    requires Ends(b, 0, ts[1..], if op == Member then 8 else 1) && Behind(op, b) == Some(rest)
    ensures c + |ts| >= |rest| && Holds(BinaryNode(n, op, b.value.node), c + |ts| - |rest|, rest, d)
  {
    hide PrintLeft, Print;
  }

  lemma {:induction false} InfixEnds(n: Expr, ts: seq<Token>, d: nat, i: nat, c: nat)
    requires d < 8 && Holds(n, c, ts, d) && !Postfix(ts)
    ensures Ends(Infix(Some(n), ts, d, i), c, ts, d)
    decreases |ts|, 1
  {
    hide Holds, Ends, Print, PrintLeft, Bare, Loop, ParsePart;
    var whole := Infix(Some(n), ts, d, i);
    if ts != [] && InfixOf(ts[0]).Some? && d < Level(InfixOf(ts[0]).value) {
      var op := InfixOf(ts[0]).value;
      LevelRange(op);
      InfixLevel(ts[0].sym);
      LeftFits(n, ts, d, c, Level(op));
      PartEnds(ts[1..], Level(op));
      var b := ParsePart(ts[1..], Level(op));
      if b.Ok? {
        InfixHolds(n, op, ts, d, c, b);
        LoopEnds(BinaryNode(n, op, b.value.node), b.value.rest, d, i + 1, c + |ts| - |b.value.rest|);
        EndsMore(whole, c + |ts| - |b.value.rest|, b.value.rest, c, ts, d);
      } else {
        EndsBadly(whole, c, ts, d);
      }
    } else if Next(ts, Sym.Ternary) && d < TERNARY_LEVEL {
      LeftFits(n, ts, d, c, TERNARY_LEVEL);
      TernaryEnds(n, ts, d, i, c);
    } else {
      NodeEnds(n, ts, d, c);
    }
  }

  lemma InfixLevel(s: Sym)
    ensures InfixSym(s).Some? ==> Level(InfixSym(s).value) < 8
  {
  }

  lemma InfixHolds(n: Expr, op: BinaryOp, ts: seq<Token>, d: nat, c: nat, b: Result<Parsed, Error>)
    requires ts != [] && d < Level(op) < 8 && c >= |PrintLeft(n, Level(op))|
    requires b.Ok? && Ends(b, 0, ts[1..], Level(op))
    ensures c + |ts| >= |b.value.rest|
    ensures Holds(BinaryNode(n, op, b.value.node), c + |ts| - |b.value.rest|, b.value.rest, d)
  {
    hide PrintLeft, Print;
  }

  lemma {:induction false} TernaryEnds(n: Expr, ts: seq<Token>, d: nat, i: nat, c: nat)
    requires d < TERNARY_LEVEL && c >= |PrintLeft(n, TERNARY_LEVEL)| && Next(ts, Sym.Ternary)
    ensures Ends(Infix(Some(n), ts, d, i), c, ts, d)
    decreases |ts|, 0
  {
    hide Holds, Ends, Print, PrintLeft, Bare, Loop, ParsePart;
    var whole := Infix(Some(n), ts, d, i);
    var t := ParsePart(ts[1..], TERNARY_LEVEL);
    PartEnds(ts[1..], TERNARY_LEVEL);
    if t.Ok? && Next(t.value.rest, Colon) && ParsePart(t.value.rest[1..], TERNARY_LEVEL).Ok? {
      var us := t.value.rest[1..];
      var f := ParsePart(us, TERNARY_LEVEL);
      PartEnds(us, TERNARY_LEVEL);
      TernaryHolds(n, ts, d, c, t, us, f);
      LoopEnds(TernaryNode(n, t.value.node, f.value.node), f.value.rest, d, i + 1, c + |ts| - |f.value.rest|);
      EndsMore(whole, c + |ts| - |f.value.rest|, f.value.rest, c, ts, d);
    } else {
      EndsBadly(whole, c, ts, d);
    }
  }

  lemma TernaryHolds(n: Expr, ts: seq<Token>, d: nat, c: nat, t: Result<Parsed, Error>, us: seq<Token>,
    f: Result<Parsed, Error>)
    requires ts != [] && d < TERNARY_LEVEL && c >= |PrintLeft(n, TERNARY_LEVEL)|
    requires t.Ok? && Ends(t, 0, ts[1..], TERNARY_LEVEL) && |t.value.rest| == |us| + 1
    requires f.Ok? && Ends(f, 0, us, TERNARY_LEVEL)
    ensures c + |ts| >= |f.value.rest|
    ensures Holds(TernaryNode(n, t.value.node, f.value.node), c + |ts| - |f.value.rest|, f.value.rest, d)
  {
    hide PrintLeft, Print;
  }

  /** Whatever is parsed to a tree has at least as many tokens as the print of the tree. */
  lemma Shortest(ts: seq<Token>)
    ensures Parse(ts).Ok? ==> |Print(Parse(ts).value, 0)| <= |ts|
  {
    hide ParsePart, Print;
    PartEnds(ts, 0);
  }

  lemma TruthyShape(e: Expr)
    ensures Strength(Truthy(e)) == Strength(e) && (Truthy(e) == NullNode <==> e == NullNode)
    ensures forall level: nat :: LeftBare(Truthy(e), level) == LeftBare(e, level)
  {
  }

  /** Printed for the same place, the two trees have the same parentheses. */
  lemma TruthyPrint(e: Expr, level: nat)
    requires |Bare(Truthy(e))| == |Bare(e)|
    ensures |Print(Truthy(e), level)| == |Print(e, level)| && |PrintLeft(Truthy(e), level)| == |PrintLeft(e, level)|
  {
    hide Bare;
    TruthyShape(e);
  }

  lemma {:induction false} TruthyLength(e: Expr)
    ensures |Bare(Truthy(e))| == |Bare(e)|
  {
    match e
    case UnaryNode(_, x) =>
      hide Print;
      TruthyLength(x);
      TruthyPrint(x, 7);
    case BinaryNode(a, op, b) =>
      TruthyLength(a);
      TruthyLength(b);
      TruthyBinary(a, op, b);
    case TernaryNode(c, t, f) =>
      hide Print, PrintLeft;
      TruthyLength(c);
      TruthyLength(t);
      TruthyLength(f);
      TruthyPrint(c, TERNARY_LEVEL);
      TruthyPrint(t, TERNARY_LEVEL);
      TruthyPrint(f, TERNARY_LEVEL);
    case _ =>
  }

  lemma TruthyBinary(a: Expr, op: BinaryOp, b: Expr)
    requires |Bare(Truthy(a))| == |Bare(a)| && |Bare(Truthy(b))| == |Bare(b)|
    ensures |Bare(BinaryNode(Truthy(a), op, Truthy(b)))| == |Bare(BinaryNode(a, op, b))|
  {
    hide Print, PrintLeft, Truthy;
    TruthyShape(b);
    TruthyPrint(a, Level(op));
    TruthyPrint(b, Level(op));
    TruthyPrint(b, 1);
  }

  /** The printed parentheses are all needed: without a pair of them, or any two tokens, something else
      is parsed or nothing at all. */
  lemma EveryTokenNeeded(e: Expr, i: nat, j: nat)
    requires ChainsFit(e) && i < j < |Print(e, 0)|
    ensures var p := Print(e, 0); Parse(p[..i] + p[i + 1..j] + p[j + 1..]) != Parse(p)
  {
    hide Bare, ChainsFit, Parse;
    var p := Print(e, 0);
    ParsePrint(e);
    TruthyLength(e);
    LevelsAboveOne(e);
    Shortest(p[..i] + p[i + 1..j] + p[j + 1..]);
  }
}

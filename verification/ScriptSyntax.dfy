/** Tokens and expression trees of the script language, and the minimally parenthesising printer. */
module ScriptSyntax {
  import opened Results

  /** Punctuation and keyword tokens that an expression can contain; every other one is Other. */
  datatype Sym =
    | Add | Sub | Mul | Quo | Rem | Shl | Shr | And | Or | Xor | Not
    | LogicalAnd | LogicalOr | Equal | NotEqual | Lesser | LesserEqual | Greater | GreaterEqual
    | Ternary | Colon | Comma | Period | LeftParen | RightParen | LeftBracket | RightBracket
    | BooleanKeyword | NumberKeyword | StringKeyword | Null | Other

  datatype Token =
    | Sym(sym: Sym)
    | Ident(text: string)
    | Number(text: string)
    | Boolean(text: string)
    | Str(text: string)

  datatype UnaryOp = Plus | Negate | Not | BitNot

  datatype BinaryOp =
    | LogicalOr | LogicalAnd | Equal | NotEqual | Lesser | LesserEqual | Greater | GreaterEqual
    | Add | Sub | Or | Xor | Mul | Div | Rem | Lsh | Rsh | And | Group
    | Member | Call | Subscript

  datatype Keyword = BooleanType | NumberType | StringType

  /** Expression nodes without spans. Number and string literals keep their text. */
  datatype Expr =
    | IdentNode(ident: string)
    | KeywordNode(keyword: Keyword)
    | NumberNode(text: string)
    | BooleanNode(value: bool)
    | StringNode(text: string)
    | NullNode
    | UnaryNode(uop: UnaryOp, operand: Expr)
    | BinaryNode(a: Expr, op: BinaryOp, b: Expr)
    | TernaryNode(c: Expr, t: Expr, f: Expr)

  /** An operator is accepted in a frame of smaller depth; its right operand is parsed at this depth. */
  function Level(op: BinaryOp): nat {
    match op
    case Member | Call | Subscript => 8
    case Mul | Div | Rem | Lsh | Rsh | And => 7
    case Add | Sub | Or | Xor => 6
    case Equal | NotEqual | Lesser | LesserEqual | Greater | GreaterEqual => 5
    case LogicalAnd => 4
    case LogicalOr => 3
    case Group => 2
  }

  const TERNARY_LEVEL: nat := 3

  function InfixSym(s: Sym): Option<BinaryOp> {
    match s
    case Mul => Some(BinaryOp.Mul)
    case Quo => Some(Div)
    case Rem => Some(BinaryOp.Rem)
    case Shl => Some(Lsh)
    case Shr => Some(Rsh)
    case And => Some(BinaryOp.And)
    case Add => Some(BinaryOp.Add)
    case Sub => Some(BinaryOp.Sub)
    case Or => Some(BinaryOp.Or)
    case Xor => Some(BinaryOp.Xor)
    case Equal => Some(BinaryOp.Equal)
    case NotEqual => Some(BinaryOp.NotEqual)
    case Lesser => Some(BinaryOp.Lesser)
    case LesserEqual => Some(BinaryOp.LesserEqual)
    case Greater => Some(BinaryOp.Greater)
    case GreaterEqual => Some(BinaryOp.GreaterEqual)
    case LogicalAnd => Some(BinaryOp.LogicalAnd)
    case LogicalOr => Some(BinaryOp.LogicalOr)
    case Comma => Some(Group)
    case _ => None
  }

  function PrefixSym(s: Sym): Option<UnaryOp> {
    match s
    case Add => Some(Plus)
    case Sub => Some(Negate)
    case Not => Some(UnaryOp.Not)
    case Xor => Some(BitNot)
    case _ => None
  }

  function InfixOf(t: Token): Option<BinaryOp> {
    if t.Sym? then InfixSym(t.sym) else None
  }

  function PrefixOf(t: Token): Option<UnaryOp> {
    if t.Sym? then PrefixSym(t.sym) else None
  }

  // ---- The printer ----

  function SymOfUnary(op: UnaryOp): Sym {
    match op
    case Plus => Sym.Add
    case Negate => Sym.Sub
    case Not => Sym.Not
    case BitNot => Sym.Xor
  }

  function SymOfBinary(op: BinaryOp): Sym
    requires Level(op) < 8
  {
    match op
    case Mul => Sym.Mul
    case Div => Sym.Quo
    case Rem => Sym.Rem
    case Lsh => Sym.Shl
    case Rsh => Sym.Shr
    case And => Sym.And
    case Add => Sym.Add
    case Sub => Sym.Sub
    case Or => Sym.Or
    case Xor => Sym.Xor
    case Equal => Sym.Equal
    case NotEqual => Sym.NotEqual
    case Lesser => Sym.Lesser
    case LesserEqual => Sym.LesserEqual
    case Greater => Sym.Greater
    case GreaterEqual => Sym.GreaterEqual
    case LogicalAnd => Sym.LogicalAnd
    case LogicalOr => Sym.LogicalOr
    case Group => Sym.Comma
  }

  predicate IsAtom(e: Expr) {
    !e.UnaryNode? && !e.BinaryNode? && !e.TernaryNode?
  }

  function AtomToken(e: Expr): Token
    requires IsAtom(e)
  {
    match e
    case IdentNode(s) => Ident(s)
    case KeywordNode(BooleanType) => Sym(BooleanKeyword)
    case KeywordNode(NumberType) => Sym(NumberKeyword)
    case KeywordNode(StringType) => Sym(StringKeyword)
    case NumberNode(s) => Number(s)
    case BooleanNode(v) => Boolean(if v then "true" else "false")
    case StringNode(s) => Str(s)
    case NullNode => Sym(Sym.Null)
  }

  /** The expression stands without parentheses at every depth below its strength. */
  function Strength(e: Expr): nat {
    match e
    case UnaryNode(_, _) => 8
    case BinaryNode(_, op, _) => Level(op)
    case TernaryNode(_, _, _) => TERNARY_LEVEL
    case _ => 9
  }

  /** Every operator level is left-associative. A prefix operator would swallow a postfix one. */
  predicate LeftBare(e: Expr, level: nat) {
    if level == 8 then IsAtom(e) || (e.BinaryNode? && Level(e.op) == 8) else Strength(e) >= level
  }

  function Parens(ts: seq<Token>): seq<Token> {
    [Sym(LeftParen)] + ts + [Sym(RightParen)]
  }

  /** Prints e for a frame of the given depth, with parentheses only where they are needed. */
  function Print(e: Expr, depth: nat): seq<Token>
    decreases e, 1
  {
    if depth < Strength(e) then Bare(e) else Parens(Bare(e))
  }

  function PrintLeft(e: Expr, level: nat): seq<Token>
    decreases e, 1
  {
    if LeftBare(e, level) then Bare(e) else Parens(Bare(e))
  }

  function Bare(e: Expr): (ts: seq<Token>)
    ensures ts != []
    decreases e, 0
  {
    match e
    case UnaryNode(op, x) => [Sym(SymOfUnary(op))] + Print(x, 7)
    case BinaryNode(a, Member, b) => PrintLeft(a, 8) + [Sym(Period)] + Print(b, 8)
    case BinaryNode(a, Call, b) =>
      if b == NullNode then PrintLeft(a, 8) + [Sym(LeftParen), Sym(RightParen)]
      else PrintLeft(a, 8) + Parens(Print(b, 1))
    case BinaryNode(a, Subscript, b) => PrintLeft(a, 8) + [Sym(LeftBracket)] + Print(b, 1) + [Sym(RightBracket)]
    case BinaryNode(a, op, b) => PrintLeft(a, Level(op)) + [Sym(SymOfBinary(op))] + Print(b, Level(op))
    case TernaryNode(c, t, f) =>
      PrintLeft(c, TERNARY_LEVEL) + [Sym(Sym.Ternary)] + Print(t, TERNARY_LEVEL)
      + [Sym(Colon)] + Print(f, TERNARY_LEVEL)
    case _ => [AtomToken(e)]
  }

  /** What boolean literals come back as: Boolean of any non-empty text is true. */
  function Truthy(e: Expr): Expr {
    match e
    case BooleanNode(_) => BooleanNode(true)
    case UnaryNode(op, x) => UnaryNode(op, Truthy(x))
    case BinaryNode(a, op, b) => BinaryNode(Truthy(a), op, Truthy(b))
    case TernaryNode(c, t, f) => TernaryNode(Truthy(c), Truthy(t), Truthy(f))
    case _ => e
  }

  predicate HasFalse(e: Expr) {
    match e
    case BooleanNode(v) => !v
    case UnaryNode(_, x) => HasFalse(x)
    case BinaryNode(a, _, b) => HasFalse(a) || HasFalse(b)
    case TernaryNode(c, t, f) => HasFalse(c) || HasFalse(t) || HasFalse(f)
    case _ => false
  }

  lemma {:induction false} TruthyUnchanged(e: Expr)
    ensures Truthy(e) == e <==> !HasFalse(e)
  {
    match e
    case UnaryNode(_, x) => TruthyUnchanged(x);
    case BinaryNode(a, _, b) =>
      TruthyUnchanged(a);
      TruthyUnchanged(b);
    case TernaryNode(c, t, f) =>
      TruthyUnchanged(c);
      TruthyUnchanged(t);
      TruthyUnchanged(f);
    case _ =>
  }

  const LOOP_LIMIT: nat := 5000

  /** Operators that one frame applies in a row before it reaches e itself. */
  function Chain(e: Expr): nat {
    match e
    case BinaryNode(a, op, _) => if LeftBare(a, Level(op)) then Chain(a) + 1 else 1
    case TernaryNode(c, _, _) => if LeftBare(c, TERNARY_LEVEL) then Chain(c) + 1 else 1
    case _ => 0
  }

  /** No frame needed to read e runs its loop too often. */
  predicate ChainsFit(e: Expr) {
    && Chain(e) <= LOOP_LIMIT
    && match e
       case UnaryNode(_, x) => ChainsFit(x)
       case BinaryNode(a, _, b) => ChainsFit(a) && ChainsFit(b)
       case TernaryNode(c, t, f) => ChainsFit(c) && ChainsFit(t) && ChainsFit(f)
       case _ => true
  }
}

/** What the expression parser builds (src/wren_compiler.cpp), in terms of the values that
    trees stand for and of concrete tokens. */
module PrattTrees {
  import opened Basics
  import opened Pratt

  // ----- Parentheses -----

  predicate NoGroup(e: Expr) {
    match e
    case Atom(_) => true
    case Group(_) => false
    case Unary(_, x) => NoGroup(x)
    case Binary(_, l, r) => NoGroup(l) && NoGroup(r)
    case And(l, r) => NoGroup(l) && NoGroup(r)
    case Or(l, r) => NoGroup(l) && NoGroup(r)
    case Cond(c, y, n) => NoGroup(c) && NoGroup(y) && NoGroup(n)
    case Index(x, args) => NoGroup(x) && NoGroups(args)
  }

  predicate NoGroups(args: Args) {
    match args
    case Last(e) => NoGroup(e)
    case More(e, rest) => NoGroup(e) && NoGroups(rest)
  }

  /** What operators may stand for. */
  datatype Meaning = Meaning(
    atom: int -> int, unary: (UnOp, int) -> int, binary: (BinOp, int, int) -> int, conj: (int, int) -> int, disj: (int, int) -> int,
    cond: (int, int, int) -> int, index: (int, seq<int>) -> int)

  /** The value of a tree; parentheses have none of their own. */
  function Value(m: Meaning, e: Expr): int {
    match e
    case Atom(id) => m.atom(id)
    case Group(x) => Value(m, x)
    case Unary(op, x) => m.unary(op, Value(m, x))
    case Binary(op, l, r) => m.binary(op, Value(m, l), Value(m, r))
    case And(l, r) => m.conj(Value(m, l), Value(m, r))
    case Or(l, r) => m.disj(Value(m, l), Value(m, r))
    case Cond(c, y, n) => m.cond(Value(m, c), Value(m, y), Value(m, n))
    case Index(x, args) => m.index(Value(m, x), Values(m, args))
  }

  function Values(m: Meaning, args: Args): seq<int> {
    match args
    case Last(e) => [Value(m, e)]
    case More(e, rest) => [Value(m, e)] + Values(m, rest)
  }

  /** The tree that is built has no parentheses, and the same value whatever the operators stand for. */
  lemma {:induction false} EraseMeans(m: Meaning, e: Expr)
    ensures NoGroup(Erase(e)) && Value(m, Erase(e)) == Value(m, e)
    ensures NoGroup(e) ==> Erase(e) == e
  {
    match e
    case Atom(_) =>
    case Group(x) => EraseMeans(m, x);
    case Unary(_, x) => EraseMeans(m, x);
    case Binary(_, l, r) => EraseMeans(m, l); EraseMeans(m, r);
    case And(l, r) => EraseMeans(m, l); EraseMeans(m, r);
    case Or(l, r) => EraseMeans(m, l); EraseMeans(m, r);
    case Cond(c, y, n) => EraseMeans(m, c); EraseMeans(m, y); EraseMeans(m, n);
    case Index(x, args) => EraseMeans(m, x); ErasesMean(m, args);
  }

  lemma {:induction false} ErasesMean(m: Meaning, args: Args)
    ensures NoGroups(EraseArgs(args)) && Values(m, EraseArgs(args)) == Values(m, args)
    ensures NoGroups(args) ==> EraseArgs(args) == args
  {
    match args
    case Last(e) => EraseMeans(m, e);
    case More(e, rest) => EraseMeans(m, e); ErasesMean(m, rest);
  }

  /** The tokens but for parentheses. */
  function Bare(ts: seq<Token>): seq<Token> {
    if ts == [] then [] else (if ts[0] == LeftParen || ts[0] == RightParen then [] else [ts[0]]) + Bare(ts[1..])
  }

  lemma {:induction false} BareAppend(a: seq<Token>, b: seq<Token>)
    ensures Bare(a + b) == Bare(a) + Bare(b)
  {
    if a != [] {
      BareAppend(a[1..], b);
      assert (a + b)[1..] == a[1..] + b;
    } else {
      assert a + b == b;
    }
  }

  lemma BareOne(t: Token)
    ensures Bare([t]) == if t == LeftParen || t == RightParen then [] else [t]
  {
    assert Bare([t][1..]) == [];
  }

  /** A token between two parts. */
  lemma BareJoin(a: seq<Token>, t: Token, b: seq<Token>)
    ensures Bare(a + [t] + b) == Bare(a) + Bare([t]) + Bare(b)
  {
    BareAppend(a + [t], b);
    BareAppend(a, [t]);
  }

  /** The tokens of the tree that is built are those of the specified one but for parentheses. */
  lemma {:induction false} EraseTokens(e: Expr)
    ensures Bare(Print(Erase(e))) == Bare(Print(e))
  {
    hide Bare;
    match e
    case Atom(_) =>
    case Group(x) =>
      EraseTokens(x);
      BareJoin([LeftParen] + Print(x), RightParen, []);
      BareAppend([LeftParen], Print(x));
      BareOne(LeftParen);
      BareOne(RightParen);
      BareNone();
      assert Print(e) == [LeftParen] + Print(x) + [RightParen] + [];
    case Unary(op, x) =>
      EraseTokens(x);
      BareAppend([UnToken(op)], Print(x));
      BareAppend([UnToken(op)], Print(Erase(x)));
    case Binary(op, l, r) =>
      EraseTokens(l);
      EraseTokens(r);
      EraseJoined(l, Operator(op), r);
    case And(l, r) =>
      EraseTokens(l);
      EraseTokens(r);
      EraseJoined(l, AmpAmp, r);
    case Or(l, r) =>
      EraseTokens(l);
      EraseTokens(r);
      EraseJoined(l, PipePipe, r);
    case Cond(c, y, n) =>
      EraseTokens(c);
      EraseTokens(y);
      EraseTokens(n);
      EraseJoined(c, Question, y);
      BareJoin(Print(c) + [Question] + Print(y), Colon, Print(n));
      BareJoin(Print(Erase(c)) + [Question] + Print(Erase(y)), Colon, Print(Erase(n)));
    case Index(x, args) =>
      EraseTokens(x);
      EraseTokensArgs(args);
      BareJoin(Print(x), LeftBracket, PrintArgs(args));
      BareJoin(Print(Erase(x)), LeftBracket, PrintArgs(EraseArgs(args)));
      BareAppend(Print(x) + [LeftBracket] + PrintArgs(args), [RightBracket]);
      BareAppend(Print(Erase(x)) + [LeftBracket] + PrintArgs(EraseArgs(args)), [RightBracket]);
  }

  lemma BareNone()
    ensures Bare([]) == []
  {
  }

  lemma EraseJoined(l: Expr, t: Token, r: Expr)
    requires Bare(Print(Erase(l))) == Bare(Print(l)) && Bare(Print(Erase(r))) == Bare(Print(r))
    ensures Bare(Print(Erase(l)) + [t] + Print(Erase(r))) == Bare(Print(l) + [t] + Print(r))
  {
    hide Bare, Print, Erase;
    BareJoin(Print(l), t, Print(r));
    BareJoin(Print(Erase(l)), t, Print(Erase(r)));
  }

  lemma {:induction false} EraseTokensArgs(args: Args)
    ensures Bare(PrintArgs(EraseArgs(args))) == Bare(PrintArgs(args))
  {
    hide Bare;
    match args
    case Last(e) => EraseTokens(e);
    case More(e, rest) =>
      EraseTokens(e);
      EraseTokensArgs(rest);
      BareJoin(Print(e), Comma, PrintArgs(rest));
      BareJoin(Print(Erase(e)), Comma, PrintArgs(EraseArgs(rest)));
  }

  // ----- Precedence -----

  /** The binary operators from the loosest to the tightest. */
  function Levels(): seq<set<BinOp>> {
    [{EqEq, BangEq}, {Is}, {Lt, Gt, LtEq, GtEq}, {Pipe}, {Caret}, {Amp}, {LtLt, GtGt}, {DotDot, DotDotDot}, {Plus, Minus}, {Star, Slash, Percent}]
  }

  predicate OnLevel(op: BinOp, n: nat) { n < |Levels()| && op in Levels()[n] }

  lemma EachOnLevel(op: BinOp) returns (n: nat)
    ensures OnLevel(op, n) && OpPrec(op) == PrecEquality + n
    ensures forall k: nat :: OnLevel(op, k) ==> k == n
  {
    n := OpPrec(op) - PrecEquality;
  }

  /** The same with the two logical operators, which are looser than all others. */
  predicate TokenOnLevel(t: Token, n: nat) {
    match t
    case PipePipe => n == 0
    case AmpAmp => n == 1
    case Operator(op) => n >= 2 && OnLevel(op, n - 2)
    case _ => false
  }

  /** Which of two operators takes the operand between them: the tighter one, and of two on the same level the left
      one, or the right one if they are logical. */
  lemma TwoOperators(a: int, t: Token, n: nat, b: int, t': Token, n': nat, c: int)
    requires TokenOnLevel(t, n) && TokenOnLevel(t', n')
    ensures var x, y, z := Atom(a), Atom(b), Atom(c);
      Parse([Primary(a), t, Primary(b), t', Primary(c)], PrecLowest) ==
        Some(Parsed(if n < n' || n == n' < 2 then Joined(x, t, Joined(y, t', z)) else Joined(Joined(x, t, y), t', z), []))
  {
    LevelIsPrec(t, n);
    LevelIsPrec(t', n');
    var x, y, z := Atom(a), Atom(b), Atom(c);
    PrintJoined(x, t, y);
    PrintJoined(y, t', z);
    if n < n' || n == n' < 2 {
      PrintJoined(x, t, Joined(y, t', z));
      ProperRight(x, t, y, t', z);
      Reads([Primary(a), t, Primary(b), t', Primary(c)], Joined(x, t, Joined(y, t', z)));
    } else {
      PrintJoined(Joined(x, t, y), t', z);
      ProperLeft(x, t, y, t', z);
      Reads([Primary(a), t, Primary(b), t', Primary(c)], Joined(Joined(x, t, y), t', z));
    }
    hide *;
  }

  lemma LevelIsPrec(t: Token, n: nat)
    requires TokenOnLevel(t, n)
    ensures RulePrec(t) == PrecLogicalOr + n && (t.Operator? || t == AmpAmp || t == PipePipe) && (t.Operator? <==> n >= 2)
  {
    if t.Operator? {
      var k := EachOnLevel(t.op);
    }
  }

  lemma PrintJoined(l: Expr, t: Token, r: Expr)
    requires t.Operator? || t == AmpAmp || t == PipePipe
    ensures Print(Joined(l, t, r)) == Print(l) + [t] + Print(r)
  {
  }

  lemma ProperRight(x: Expr, t: Token, y: Expr, t': Token, z: Expr)
    requires x.Atom? && y.Atom? && z.Atom? && (t.Operator? || t == AmpAmp || t == PipePipe) && (t'.Operator? || t' == AmpAmp || t' == PipePipe)
    requires RulePrec(t) < RulePrec(t') || (RulePrec(t) == RulePrec(t') && !t.Operator? && !t'.Operator?)
    ensures Proper(Joined(x, t, Joined(y, t', z)))
  {
  }

  lemma ProperLeft(x: Expr, t: Token, y: Expr, t': Token, z: Expr)
    requires x.Atom? && y.Atom? && z.Atom? && (t.Operator? || t == AmpAmp || t == PipePipe) && (t'.Operator? || t' == AmpAmp || t' == PipePipe)
    requires RulePrec(t) > RulePrec(t') || (RulePrec(t) == RulePrec(t') && t.Operator? && t'.Operator?)
    ensures Proper(Joined(Joined(x, t, y), t', z))
  {
  }

  lemma Reads(ts: seq<Token>, t: Expr)
    requires Proper(t) && Print(t) == ts
    ensures Parse(ts, PrecLowest) == Some(Parsed(t, []))
  {
    Whole(t);
  }

  lemma Whole(t: Expr)
    requires Proper(t)
    ensures Parse(Print(t), PrecLowest) == Some(Parsed(t, []))
  {
    LowestFits(t);
    ParseExactly(t, [], PrecLowest);
    assert Print(t) + [] == Print(t);
  }

  /** A prefix operator takes only what is next to it, with its subscripts. */
  lemma PrefixOperator(u: UnOp, a: int, op: BinOp, b: int)
    ensures Parse([UnToken(u), Primary(a), Operator(op), Primary(b)], PrecLowest) == Some(Parsed(Binary(op, Unary(u, Atom(a)), Atom(b)), []))
    ensures Parse([UnToken(u), Primary(a), LeftBracket, Primary(b), RightBracket], PrecLowest) ==
      Some(Parsed(Unary(u, Index(Atom(a), Last(Atom(b)))), []))
  {
    OpPrecs(op);
    var x, y := Atom(a), Atom(b);
    assert Print(Unary(u, x)) == [UnToken(u), Primary(a)];
    assert Print(Index(x, Last(y))) == [Primary(a), LeftBracket, Primary(b), RightBracket] by {
      assert PrintArgs(Last(y)) == [Primary(b)];
    }
    assert Proper(x) && Proper(y) && Proper(Unary(u, x)) && ProperArgs(Last(y)) && Proper(Index(x, Last(y)));
    assert Proper(Binary(op, Unary(u, x), y)) && Proper(Unary(u, Index(x, Last(y))));
    Reads([UnToken(u), Primary(a), Operator(op), Primary(b)], Binary(op, Unary(u, x), y));
    Reads([UnToken(u), Primary(a), LeftBracket, Primary(b), RightBracket], Unary(u, Index(x, Last(y))));
    hide Parse;
  }

  /** A conditional takes whole disjunctions on all sides, */
  lemma ConditionalTakesAll(a: int, b: int, c: int, d: int, e: int)
    ensures Parse([Primary(a), PipePipe, Primary(b), Question, Primary(c), Colon, Primary(d), PipePipe, Primary(e)], PrecLowest) ==
      Some(Parsed(Cond(Or(Atom(a), Atom(b)), Atom(c), Or(Atom(d), Atom(e))), []))
  {
    var x, y := Or(Atom(a), Atom(b)), Or(Atom(d), Atom(e));
    assert Print(x) == [Primary(a), PipePipe, Primary(b)] && Print(y) == [Primary(d), PipePipe, Primary(e)];
    Reads([Primary(a), PipePipe, Primary(b), Question, Primary(c), Colon, Primary(d), PipePipe, Primary(e)], Cond(x, Atom(c), y));
    hide Parse;
  }

  /** and nests to the right. */
  lemma ConditionalNests(a: int, b: int, c: int, d: int, e: int)
    ensures Parse([Primary(a), Question, Primary(b), Colon, Primary(c), Question, Primary(d), Colon, Primary(e)], PrecLowest) ==
      Some(Parsed(Cond(Atom(a), Atom(b), Cond(Atom(c), Atom(d), Atom(e))), []))
  {
    var y := Cond(Atom(c), Atom(d), Atom(e));
    assert Print(y) == [Primary(c), Question, Primary(d), Colon, Primary(e)];
    Reads([Primary(a), Question, Primary(b), Colon, Primary(c), Question, Primary(d), Colon, Primary(e)], Cond(Atom(a), Atom(b), y));
    hide Parse;
  }

  // ----- The code -----

  /** Tree e stands for the same as t, without parentheses. */
  ghost predicate StandsFor(e: Expr, t: Expr) {
    NoGroup(e) && (NoGroup(t) ==> e == t) && Bare(Print(e)) == Bare(Print(t)) && forall m :: Value(m, e) == Value(m, t)
  }

  lemma EraseStands(t: Expr)
    ensures StandsFor(Erase(t), t)
  {
    hide Erase, Value, Bare, NoGroup, Print;
    EraseTokens(t);
    forall m
      ensures Value(m, Erase(t)) == Value(m, t)
    {
      EraseMeans(m, t);
    }
    EraseMeans(Meaning(_ => 0, (_, _) => 0, (_, _, _) => 0, (_, _) => 0, (_, _) => 0, (_, _, _) => 0, (_, _) => 0), t);
  }

  /** What the code says about some tokens is what the specification finds. */
  ghost predicate Outcome(ts: seq<Token>, e: Expr, rest: seq<Token>, error: bool) {
    match Parse(ts, PrecLowest)
    case Some(x) => e == Erase(x.value) && rest == x.rest && !error
    case None => error
  }

  /** The tokens of a tree, with newlines only where they are ignored. */
  ghost predicate Shows(ts: seq<Token>, t: Expr) {
    Proper(t) && Strip(ts) == Print(t) && LinesOk(ts)
  }

  lemma OutcomeOfTree(ts: seq<Token>, e: Expr, rest: seq<Token>, error: bool, t: Expr)
    requires Outcome(ts, e, rest, error) && Shows(ts, t)
    ensures !error && rest == [] && StandsFor(e, t)
  {
    hide Parse, Strip, Proper, Print, StandsFor, Erase, LinesOk;
    AcceptedExactly(ts, t);
    EraseStands(t);
  }

  lemma TreeOfOutcome(ts: seq<Token>, e: Expr, rest: seq<Token>, error: bool) returns (t: Expr)
    requires Outcome(ts, e, rest, error) && !error && rest == []
    ensures Shows(ts, t) && StandsFor(e, t)
  {
    hide Parse, Strip, Proper, Print, StandsFor, Erase, LinesOk;
    t := Parse(ts, PrecLowest).value.value;
    AcceptedExactly(ts, t);
    EraseStands(t);
  }

  /** The tree of a whole expression (expression): with the tokens of a proper tree, and newlines where they are ignored, it is that
      tree without its parentheses, so the very tree if it has none; and nothing else is accepted. */
  method Expression(ts: seq<Token>) returns (e: Expr, rest: seq<Token>, error: bool)
    ensures forall t :: Shows(ts, t) ==> !error && rest == [] && StandsFor(e, t)
    ensures !error && rest == [] ==> exists t :: Shows(ts, t) && StandsFor(e, t)
  {
    hide Parse, Erase, StandsFor, Shows;
    var parser := new Parser(ts);
    e := parser.ParsePrecedence(PrecLowest);
    error := parser.hasError;
    rest := parser.tokens[parser.pos..];
    assert Outcome(ts, e, rest, error);
    hide Outcome;
    forall t | Shows(ts, t)
      ensures !error && rest == [] && StandsFor(e, t)
    {
      OutcomeOfTree(ts, e, rest, error, t);
    }
    if !error && rest == [] {
      ghost var t := TreeOfOutcome(ts, e, rest, error);
    }
  }
}

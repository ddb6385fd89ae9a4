/** The expression parser (src/wren_compiler.cpp): a table of precedences and
    recursion. A token sequence stands for what the lexer has still to deliver;
    at its end the current token is the end of the file. */
module Pratt {
  import opened Basics

  // ----- Precedences and the rule table -----

  const PrecNone := 0
  const PrecLowest := 1
  const PrecAssignment := 2
  const PrecConditional := 3
  const PrecLogicalOr := 4
  const PrecLogicalAnd := 5
  const PrecEquality := 6
  const PrecIs := 7
  const PrecComparison := 8
  const PrecBitwiseOr := 9
  const PrecBitwiseXor := 10
  const PrecBitwiseAnd := 11
  const PrecBitwiseShift := 12
  const PrecRange := 13
  const PrecTerm := 14
  const PrecFactor := 15
  const PrecUnary := 16
  const PrecCall := 17
  const PrecPrimary := 18

  datatype BinOp =
    | DotDot | DotDotDot | Star | Slash | Percent | Plus | Minus | LtLt | GtGt | Pipe | Caret | Amp
    | Lt | Gt | LtEq | GtEq | EqEq | BangEq | Is

  datatype UnOp = Negate | Bang | Tilde

  /** Operator(Minus) is the token that is also a prefix. Primary stands for the tokens that are an
      expression on their own, Other for those that have no rule. */
  datatype Token =
    | Primary(id: int) | LeftParen | RightParen | LeftBracket | RightBracket | Comma | Colon | Question | AmpAmp | PipePipe
    | Operator(op: BinOp) | BangToken | TildeToken | Line | Other(kind: int)

  function OpPrec(op: BinOp): nat {
    match op
    case DotDot => PrecRange
    case DotDotDot => PrecRange
    case Star => PrecFactor
    case Slash => PrecFactor
    case Percent => PrecFactor
    case Plus => PrecTerm
    case Minus => PrecTerm
    case LtLt => PrecBitwiseShift
    case GtGt => PrecBitwiseShift
    case Pipe => PrecBitwiseOr
    case Caret => PrecBitwiseXor
    case Amp => PrecBitwiseAnd
    case Lt => PrecComparison
    case Gt => PrecComparison
    case LtEq => PrecComparison
    case GtEq => PrecComparison
    case EqEq => PrecEquality
    case BangEq => PrecEquality
    case Is => PrecIs
  }

  /** The precedence column of the rule table. */
  function RulePrec(t: Token): nat {
    match t
    case Operator(op) => OpPrec(op)
    case AmpAmp => PrecLogicalAnd
    case PipePipe => PrecLogicalOr
    case Question => PrecAssignment
    case LeftBracket => PrecCall
    case _ => PrecNone
  }

  /** The precedence of the current token. */
  function NextPrec(ts: seq<Token>): nat {
    if ts == [] then PrecNone else RulePrec(ts[0])
  }

  // ----- Trees and what they look like as tokens -----

  datatype Expr =
    | Atom(id: int)
    | Group(inner: Expr)
    | Unary(uop: UnOp, operand: Expr)
    | Binary(op: BinOp, left: Expr, right: Expr)
    | And(left: Expr, right: Expr)
    | Or(left: Expr, right: Expr)
    | Cond(cond: Expr, yes: Expr, no: Expr)
    | Index(receiver: Expr, args: Args)

  datatype Args = Last(arg: Expr) | More(arg: Expr, rest: Args)

  function UnToken(op: UnOp): Token {
    match op
    case Negate => Operator(Minus)
    case Bang => BangToken
    case Tilde => TildeToken
  }

  function Print(e: Expr): (ts: seq<Token>)
    ensures ts != []
  {
    match e
    case Atom(id) => [Primary(id)]
    case Group(x) => [LeftParen] + Print(x) + [RightParen]
    case Unary(op, x) => [UnToken(op)] + Print(x)
    case Binary(op, l, r) => Print(l) + [Operator(op)] + Print(r)
    case And(l, r) => Print(l) + [AmpAmp] + Print(r)
    case Or(l, r) => Print(l) + [PipePipe] + Print(r)
    case Cond(c, y, n) => Print(c) + [Question] + Print(y) + [Colon] + Print(n)
    case Index(x, args) => Print(x) + [LeftBracket] + PrintArgs(args) + [RightBracket]
  }

  function PrintArgs(args: Args): (ts: seq<Token>)
    ensures ts != []
  {
    match args
    case Last(e) => Print(e)
    case More(e, rest) => Print(e) + [Comma] + PrintArgs(rest)
  }

  function Count(args: Args): nat {
    match args
    case Last(_) => 1
    case More(_, rest) => 1 + Count(rest)
  }

  // ----- What the rule table demands of a tree -----

  /** The tree may stand where precedence p is demanded: it starts with a prefix, or its
      operator binds at least as tightly. */
  predicate Tight(e: Expr, p: nat) {
    match e
    case Atom(_) => true
    case Group(_) => true
    case Unary(_, _) => true
    case Binary(op, _, _) => p <= OpPrec(op)
    case And(_, _) => p <= PrecLogicalAnd
    case Or(_, _) => p <= PrecLogicalOr
    case Cond(_, _, _) => p <= PrecAssignment
    case Index(_, _) => p <= PrecCall
  }

  /** The tree may be the left operand of an operator of precedence q: its own operator binds more tightly, or
      as tightly if it is one of the left-associative ones. */
  predicate LeftOk(e: Expr, q: nat) {
    match e
    case Atom(_) => true
    case Group(_) => true
    case Index(_, _) => true
    case Unary(_, _) => q <= PrecUnary
    case Binary(op, _, _) => q <= OpPrec(op)
    case And(_, _) => q < PrecLogicalAnd
    case Or(_, _) => q < PrecLogicalOr
    case Cond(_, _, _) => q < PrecAssignment
  }

  /** Every operand respects the precedence and the associativity of its operator. */
  predicate Proper(e: Expr) {
    match e
    case Atom(_) => true
    case Group(x) => Proper(x)
    case Unary(_, x) => Proper(x) && Tight(x, PrecCall)
    case Binary(op, l, r) => Proper(l) && Proper(r) && LeftOk(l, OpPrec(op)) && Tight(r, OpPrec(op) + 1)
    case And(l, r) => Proper(l) && Proper(r) && LeftOk(l, PrecLogicalAnd) && Tight(r, PrecLogicalAnd)
    case Or(l, r) => Proper(l) && Proper(r) && LeftOk(l, PrecLogicalOr) && Tight(r, PrecLogicalOr)
    case Cond(c, y, n) =>
      && Proper(c) && Proper(y) && Proper(n)
      && LeftOk(c, PrecAssignment) && Tight(y, PrecConditional) && Tight(n, PrecAssignment)
    case Index(x, args) => Proper(x) && LeftOk(x, PrecCall) && ProperArgs(args) && Count(args) <= MaxParameters
  }

  predicate ProperArgs(args: Args) {
    match args
    case Last(e) => Proper(e)
    case More(e, rest) => Proper(e) && ProperArgs(rest)
  }

  const MaxParameters := 16

  // ----- Parsing -----

  /** A result and the tokens after it; None if there is a syntax error. */
  datatype Parsed<T> = Parsed(value: T, rest: seq<Token>)

  function SkipLines(ts: seq<Token>): (r: seq<Token>)
    ensures |r| <= |ts|
  {
    if ts != [] && ts[0] == Line then SkipLines(ts[1..]) else ts
  }

  /** Goes on after the expected token. */
  function Expect(ts: seq<Token>, t: Token): (r: Option<seq<Token>>)
    ensures r.Some? ==> |r.value| < |ts|
  {
    if ts != [] && ts[0] == t then Some(ts[1..]) else None
  }

  function Parse(ts: seq<Token>, p: nat): (r: Option<Parsed<Expr>>)
    ensures r.Some? ==> |r.value.rest| < |ts|
    decreases |ts|, 3
  {
    var e := Prefix(ts);
    if e.None? then None else Loop(e.value.value, e.value.rest, p)
  }

  /** The prefix column of the rule table. */
  function Prefix(ts: seq<Token>): (r: Option<Parsed<Expr>>)
    ensures r.Some? ==> |r.value.rest| < |ts|
    decreases |ts|, 2
  {
    if ts == [] then None
    else
      match ts[0]
      case Primary(id) => Some(Parsed(Atom(id), ts[1..]))
      case LeftParen =>
        var e := Parse(ts[1..], PrecLowest);
        if e.None? then None
        else
          var rest := Expect(e.value.rest, RightParen);
          if rest.None? then None else Some(Parsed(Group(e.value.value), rest.value))
      case Operator(Minus) => ParseUnary(Negate, ts)
      case BangToken => ParseUnary(Bang, ts)
      case TildeToken => ParseUnary(Tilde, ts)
      case _ => None
  }

  function ParseUnary(op: UnOp, ts: seq<Token>): (r: Option<Parsed<Expr>>)
    requires ts != []
    ensures r.Some? ==> |r.value.rest| < |ts|
    decreases |ts|, 1
  {
    var e := Parse(SkipLines(ts[1..]), PrecUnary + 1);
    if e.None? then None else Some(Parsed(Unary(op, e.value.value), e.value.rest))
  }

  function Loop(left: Expr, ts: seq<Token>, p: nat): (r: Option<Parsed<Expr>>)
    ensures r.Some? ==> |r.value.rest| <= |ts|
    decreases |ts|, 1
  {
    if NextPrec(ts) == PrecNone || NextPrec(ts) < p then Some(Parsed(left, ts))
    else
      var e := Infix(left, ts);
      if e.None? then None else Loop(e.value.value, e.value.rest, p)
  }

  /** The infix column of the rule table. */
  function Infix(left: Expr, ts: seq<Token>): (r: Option<Parsed<Expr>>)
    requires NextPrec(ts) != PrecNone
    ensures r.Some? ==> |r.value.rest| < |ts|
    decreases |ts|, 0
  {
    match ts[0]
    case Operator(op) => Then(Parse(SkipLines(ts[1..]), OpPrec(op) + 1), r => Binary(op, left, r))
    case AmpAmp => Then(Parse(SkipLines(ts[1..]), PrecLogicalAnd), r => And(left, r))
    case PipePipe => Then(Parse(SkipLines(ts[1..]), PrecLogicalOr), r => Or(left, r))
    case Question =>
      var y := Parse(SkipLines(ts[1..]), PrecConditional);
      if y.None? then None
      else
        var rest := Expect(y.value.rest, Colon);
        if rest.None? then None
        else Then(Parse(SkipLines(rest.value), PrecAssignment), n => Cond(left, y.value.value, n))
    case LeftBracket =>
      var args := ParseArgs(ts[1..], 1);
      if args.None? then None
      else
        var rest := Expect(SkipLines(args.value.rest), RightBracket);
        if rest.None? then None else Some(Parsed(Index(left, args.value.value), rest.value))
  }

  function Then(r: Option<Parsed<Expr>>, f: Expr -> Expr): Option<Parsed<Expr>> {
    if r.None? then None else Some(Parsed(f(r.value.value), r.value.rest))
  }

  /** Arguments from the n-th on. */
  function ParseArgs(ts: seq<Token>, n: nat): (r: Option<Parsed<Args>>)
    ensures r.Some? ==> |r.value.rest| < |ts|
    decreases |ts|, 4
  {
    var e := Parse(SkipLines(ts), PrecLowest);
    if e.None? || n == MaxParameters + 1 then None
    else
      var comma := Expect(e.value.rest, Comma);
      if comma.None? then Some(Parsed(Last(e.value.value), e.value.rest))
      else
        var more := ParseArgs(comma.value, n + 1);
        if more.None? then None else Some(Parsed(More(e.value.value, more.value.value), more.value.rest))
  }

  // ----- Soundness -----

  /** The tokens after which newlines are ignored. */
  predicate Opener(t: Token) {
    || t.Operator? || t == AmpAmp || t == PipePipe || t == Question || t == Colon || t == BangToken || t == TildeToken
    || t == LeftBracket || t == Comma
  }

  /** Newlines, if any, and a closing bracket. */
  predicate Closes(ts: seq<Token>) {
    ts != [] && (ts[0] == RightBracket || (ts[0] == Line && Closes(ts[1..])))
  }

  /** The tokens without the newlines that may be there. At the beginning there may be some if open. */
  function Unbroken(ts: seq<Token>, open: bool): seq<Token> {
    if ts == [] then []
    else if ts[0] != Line then [ts[0]] + Unbroken(ts[1..], Opener(ts[0]))
    else if open || Closes(ts) then Unbroken(ts[1..], open)
    else [Line] + Unbroken(ts[1..], false)
  }

  lemma {:induction false} UnbrokenSkip(ts: seq<Token>)
    ensures Unbroken(SkipLines(ts), false) == Unbroken(ts, true)
  {
    if ts != [] && ts[0] == Line {
      UnbrokenSkip(ts[1..]);
    }
  }

  lemma {:induction false} UnbrokenClose(ts: seq<Token>)
    ensures Closes(ts) <==> SkipLines(ts) != [] && SkipLines(ts)[0] == RightBracket
    ensures Closes(ts) ==> Unbroken(SkipLines(ts), false) == Unbroken(ts, false)
  {
    if ts != [] && ts[0] == Line {
      UnbrokenClose(ts[1..]);
    }
  }

  /** Reading e has used up the tokens of e and newlines that may be there, and the next token does not go on with it. */
  ghost predicate Read(ts: seq<Token>, e: Expr, rest: seq<Token>) {
    Unbroken(ts, false) == Print(e) + Unbroken(rest, false) && Proper(e) && LeftOk(e, NextPrec(rest))
  }

  ghost predicate ReadAt(ts: seq<Token>, r: Option<Parsed<Expr>>, p: nat) {
    r.Some? ==> Read(ts, r.value.value, r.value.rest) && Tight(r.value.value, p) && NextPrec(r.value.rest) < p
  }

  lemma {:induction false} ParseSound(ts: seq<Token>, p: nat)
    requires 0 < p <= PrecCall
    ensures ReadAt(ts, Parse(ts, p), p)
    decreases |ts|, 3
  {
    PrefixSound(ts);
    var e := Prefix(ts);
    if e.Some? {
      LoopSound(e.value.value, e.value.rest, p);
      var r := Loop(e.value.value, e.value.rest, p);
      if r.Some? {
        var mid :| Unbroken(e.value.rest, false) == mid + Unbroken(r.value.rest, false) && Print(r.value.value) == Print(e.value.value) + mid;
        Regroup(Print(e.value.value), mid, Unbroken(r.value.rest, false));
      }
    }
  }

  /** A prefix fits everywhere. */
  lemma {:induction false} PrefixSound(ts: seq<Token>)
    ensures Prefix(ts).Some? ==>
      var e, rest := Prefix(ts).value.value, Prefix(ts).value.rest;
      Read(ts, e, rest) && (e.Atom? || e.Group? || e.Unary?)
    decreases |ts|, 2
  {
    if ts != [] {
      match ts[0]
      case LeftParen => ParseSound(ts[1..], PrecLowest);
      case Operator(Minus) => UnarySound(Negate, ts);
      case BangToken => UnarySound(Bang, ts);
      case TildeToken => UnarySound(Tilde, ts);
      case _ =>
    }
  }

  lemma {:induction false} UnarySound(op: UnOp, ts: seq<Token>)
    requires ts != [] && ts[0] == UnToken(op)
    ensures ParseUnary(op, ts).Some? ==> Read(ts, ParseUnary(op, ts).value.value, ParseUnary(op, ts).value.rest)
    decreases |ts|, 1
  {
    FirstStays(ts);
    UnbrokenSkip(ts[1..]);
    ParseSound(SkipLines(ts[1..]), PrecUnary + 1);
    hide Unbroken, Parse, SkipLines;
    var e := Parse(SkipLines(ts[1..]), PrecUnary + 1);
    if e.Some? {
      UnaryPrint(op, e.value.value);
      hide Print;
      Regroup([ts[0]], Print(e.value.value), Unbroken(e.value.rest, false));
    }
  }

  lemma UnaryPrint(op: UnOp, x: Expr)
    ensures Print(Unary(op, x)) == [UnToken(op)] + Print(x)
  {
  }

  /** e is left with the tokens up to rest added to it. */
  ghost predicate Extends(left: Expr, ts: seq<Token>, e: Expr, rest: seq<Token>) {
    exists mid :: Unbroken(ts, false) == mid + Unbroken(rest, false) && Print(e) == Print(left) + mid
  }

  lemma ExtendsBy(left: Expr, ts: seq<Token>, e: Expr, rest: seq<Token>, mid: seq<Token>)
    requires Unbroken(ts, false) == mid + Unbroken(rest, false) && Print(e) == Print(left) + mid
    ensures Extends(left, ts, e, rest)
  {
  }

  lemma ExtendsFurther(left: Expr, ts: seq<Token>, e: Expr, rest: seq<Token>, e': Expr, rest': seq<Token>)
    requires Extends(left, ts, e, rest) && Extends(e, rest, e', rest')
    ensures Extends(left, ts, e', rest')
  {
    var mid :| Unbroken(ts, false) == mid + Unbroken(rest, false) && Print(e) == Print(left) + mid;
    var mid' :| Unbroken(rest, false) == mid' + Unbroken(rest', false) && Print(e') == Print(e) + mid';
    Regroup(mid, mid', Unbroken(rest', false));
    Regroup(Print(left), mid, mid');
    ExtendsBy(left, ts, e', rest', mid + mid');
  }

  /** What going on with an operand leads to. */
  ghost predicate Goes(left: Expr, ts: seq<Token>, r: Option<Parsed<Expr>>, p: nat) {
    r.Some? ==>
      && Proper(r.value.value) && Tight(r.value.value, p) && LeftOk(r.value.value, NextPrec(r.value.rest))
      && Extends(left, ts, r.value.value, r.value.rest)
  }

  lemma {:induction false} LoopSound(left: Expr, ts: seq<Token>, p: nat)
    requires Proper(left) && Tight(left, p) && LeftOk(left, NextPrec(ts)) && 0 < p <= PrecCall
    ensures Goes(left, ts, Loop(left, ts, p), p)
    ensures Loop(left, ts, p).Some? ==> NextPrec(Loop(left, ts, p).value.rest) < p
    decreases |ts|, 2
  {
    hide Proper, LeftOk, Infix, Unbroken, Print;
    if NextPrec(ts) < p {
      ExtendsBy(left, ts, left, ts, []);
    } else {
      InfixSound(left, ts);
      var e := Infix(left, ts);
      if e.Some? {
        Looser(e.value.value, NextPrec(ts), p);
        LoopSound(e.value.value, e.value.rest, p);
        var r := Loop(e.value.value, e.value.rest, p);
        if r.Some? {
          ExtendsFurther(left, ts, e.value.value, e.value.rest, r.value.value, r.value.rest);
        }
      }
    }
  }

  lemma Looser(e: Expr, q: nat, p: nat)
    requires Tight(e, q) && p <= q
    ensures Tight(e, p)
  {
  }

  lemma {:induction false} InfixSound(left: Expr, ts: seq<Token>)
    requires NextPrec(ts) != PrecNone && Proper(left) && LeftOk(left, NextPrec(ts))
    ensures Goes(left, ts, Infix(left, ts), NextPrec(ts))
    decreases |ts|, 1
  {
    hide Unbroken, Print, Parse, ParseArgs, OpPrec, SkipLines;
    FirstStays(ts);
    UnbrokenSkip(ts[1..]);
    match ts[0]
    case Operator(op) =>
      OpPrecs(op);
      ParseSound(SkipLines(ts[1..]), OpPrec(op) + 1);
      OperandSound(left, ts, ts[0], Parse(SkipLines(ts[1..]), OpPrec(op) + 1));
    case AmpAmp =>
      ParseSound(SkipLines(ts[1..]), PrecLogicalAnd);
      OperandSound(left, ts, ts[0], Parse(SkipLines(ts[1..]), PrecLogicalAnd));
    case PipePipe =>
      ParseSound(SkipLines(ts[1..]), PrecLogicalOr);
      OperandSound(left, ts, ts[0], Parse(SkipLines(ts[1..]), PrecLogicalOr));
    case Question =>
      QuestionSound(left, ts);
    case LeftBracket =>
      BracketSound(left, ts);
  }

  lemma {:induction false} QuestionSound(left: Expr, ts: seq<Token>)
    requires ts != [] && ts[0] == Question && Proper(left) && LeftOk(left, NextPrec(ts))
    ensures Goes(left, ts, Infix(left, ts), NextPrec(ts))
    decreases |ts|, 0
  {
    hide Unbroken, Print, Parse, ParseArgs, OpPrec, SkipLines;
    FirstStays(ts);
    UnbrokenSkip(ts[1..]);
    ParseSound(SkipLines(ts[1..]), PrecConditional);
    var y := Parse(SkipLines(ts[1..]), PrecConditional);
    if y.Some? && Expect(y.value.rest, Colon).Some? {
      var rest := Expect(y.value.rest, Colon).value;
      FirstStays(y.value.rest);
      UnbrokenSkip(rest);
      ParseSound(SkipLines(rest), PrecAssignment);
      CondSound(left, ts, y.value.value, SkipLines(rest), Parse(SkipLines(rest), PrecAssignment));
    }
  }

  lemma {:induction false} BracketSound(left: Expr, ts: seq<Token>)
    requires ts != [] && ts[0] == LeftBracket && Proper(left) && LeftOk(left, NextPrec(ts))
    ensures Goes(left, ts, Infix(left, ts), NextPrec(ts))
    decreases |ts|, 0
  {
    hide Unbroken, Print, Parse, ParseArgs, OpPrec, SkipLines;
    FirstStays(ts);
    ArgsSound(ts[1..], 1);
    var args := ParseArgs(ts[1..], 1);
    if args.Some? && Expect(SkipLines(args.value.rest), RightBracket).Some? {
      UnbrokenClose(args.value.rest);
      FirstStays(SkipLines(args.value.rest));
      IndexSound(left, ts, args.value.value, SkipLines(args.value.rest)[1..]);
    }
  }

  lemma OpPrecs(op: BinOp)
    ensures PrecEquality <= OpPrec(op) <= PrecFactor
  {
  }

  lemma FirstStays(ts: seq<Token>)
    requires ts != [] && ts[0] != Line
    ensures Unbroken(ts, false) == [ts[0]] + Unbroken(ts[1..], Opener(ts[0]))
  {
  }

  function Joined(left: Expr, t: Token, right: Expr): Expr
    requires t.Operator? || t == AmpAmp || t == PipePipe
  {
    match t
    case Operator(op) => Binary(op, left, right)
    case AmpAmp => And(left, right)
    case PipePipe => Or(left, right)
  }

  /** An infix operator with its right operand. */
  lemma OperandSound(left: Expr, ts: seq<Token>, t: Token, r: Option<Parsed<Expr>>)
    requires t.Operator? || t == AmpAmp || t == PipePipe
    requires r.Some? ==> Unbroken(ts, false) == [t] + (Print(r.value.value) + Unbroken(r.value.rest, false))
    ensures r.Some? ==> Extends(left, ts, Joined(left, t, r.value.value), r.value.rest)
  {
    if r.Some? {
      hide Unbroken;
      Regroup([t], Print(r.value.value), Unbroken(r.value.rest, false));
      Regroup(Print(left), [t], Print(r.value.value));
      ExtendsBy(left, ts, Joined(left, t, r.value.value), r.value.rest, [t] + Print(r.value.value));
    }
  }

  lemma CondSound(left: Expr, ts: seq<Token>, y: Expr, rest: seq<Token>, n: Option<Parsed<Expr>>)
    requires Unbroken(ts, false) == [Question] + (Print(y) + ([Colon] + Unbroken(rest, false)))
    requires n.Some? ==> Unbroken(rest, false) == Print(n.value.value) + Unbroken(n.value.rest, false)
    ensures n.Some? ==> Extends(left, ts, Cond(left, y, n.value.value), n.value.rest)
  {
    if n.Some? {
      hide Unbroken;
      var no := n.value.value;
      var a, b, c, d := [Question], Print(y), [Colon], Print(no);
      assert Print(Cond(left, y, no)) == Print(left) + a + b + c + d;
      hide Print;
      Regroup4(Print(left), a, b, c, d);
      Regroup4([], a, b, c, d + Unbroken(n.value.rest, false));
      Regroup4(a, b, c, d, Unbroken(n.value.rest, false));
      ExtendsBy(left, ts, Cond(left, y, no), n.value.rest, a + b + c + d);
    }
  }

  lemma Regroup4<T>(a: seq<T>, b: seq<T>, c: seq<T>, d: seq<T>, e: seq<T>)
    ensures a + b + c + d + e == a + (b + c + d + e) == a + (b + (c + (d + e)))
  {
    Regroup(c, d, e);
    Regroup(b, c, d + e);
    Regroup(b, c + d, e);
    Regroup(b, c, d);
    Regroup(a, b, c);
    Regroup(a, b + c, d);
    Regroup(a, b + c + d, e);
  }

  lemma IndexSound(left: Expr, ts: seq<Token>, args: Args, rest: seq<Token>)
    requires Unbroken(ts, false) == [LeftBracket] + (PrintArgs(args) + ([RightBracket] + Unbroken(rest, false)))
    ensures Extends(left, ts, Index(left, args), rest)
  {
    hide Unbroken;
    var mid := [LeftBracket] + PrintArgs(args) + [RightBracket];
    assert Print(Index(left, args)) == Print(left) + mid;
    hide Print, PrintArgs;
    assert Unbroken(ts, false) == mid + Unbroken(rest, false);
    ExtendsBy(left, ts, Index(left, args), rest, mid);
  }

  lemma {:induction false} ArgsSound(ts: seq<Token>, n: nat)
    requires n <= MaxParameters + 1
    ensures ParseArgs(ts, n).Some? ==>
      var args, rest := ParseArgs(ts, n).value.value, ParseArgs(ts, n).value.rest;
      Unbroken(ts, true) == PrintArgs(args) + Unbroken(rest, false) && ProperArgs(args) && Count(args) + n <= MaxParameters + 1
    decreases |ts|, 4
  {
    hide Unbroken, Print, Parse, Proper, LeftOk, Tight;
    UnbrokenSkip(ts);
    ParseSound(SkipLines(ts), PrecLowest);
    var e := Parse(SkipLines(ts), PrecLowest);
    if e.Some? && n < MaxParameters + 1 {
      var comma := Expect(e.value.rest, Comma);
      if comma.Some? {
        FirstStays(e.value.rest);
        ArgsSound(comma.value, n + 1);
        var more := ParseArgs(comma.value, n + 1);
        if more.Some? {
          MoreSound(Print(e.value.value), PrintArgs(more.value.value), Unbroken(more.value.rest, false));
        }
      }
    }
  }

  lemma MoreSound(a: seq<Token>, b: seq<Token>, c: seq<Token>)
    ensures a + ([Comma] + (b + c)) == a + [Comma] + b + c
  {
  }

  // ----- Completeness -----

  lemma {:induction false} FirstToken(e: Expr)
    ensures Print(e)[0] != Line
  {
    match e
    case Binary(_, l, _) => FirstToken(l);
    case And(l, _) => FirstToken(l);
    case Or(l, _) => FirstToken(l);
    case Cond(c, _, _) => FirstToken(c);
    case Index(x, _) => FirstToken(x);
    case _ =>
  }

  lemma NoLines(e: Expr, rest: seq<Token>)
    ensures SkipLines(Print(e) + rest) == Print(e) + rest
  {
    FirstToken(e);
  }

  /** What stands on the left of a looser operator may stand where that is demanded. */
  lemma LeftTight(l: Expr, q: nat, p: nat)
    requires LeftOk(l, q) && p <= q <= PrecCall
    ensures Tight(l, p)
  {
  }

  lemma TightStops(e: Expr, p: nat, next: nat)
    requires Tight(e, p) && next < p <= PrecCall
    ensures LeftOk(e, next)
  {
  }

  lemma {:induction false} ParseExactly(e: Expr, rest: seq<Token>, p: nat)
    requires Proper(e) && Tight(e, p) && NextPrec(rest) < p <= PrecCall
    ensures Parse(Print(e) + rest, p) == Some(Parsed(e, rest))
    decreases e, 2
  {
    TightStops(e, p, NextPrec(rest));
    Complete(e, rest, p);
  }

  /** Reading the tokens of a proper tree gets to the point where that tree is the left operand. */
  lemma {:induction false} Complete(e: Expr, rest: seq<Token>, p: nat)
    requires Proper(e) && Tight(e, p) && LeftOk(e, NextPrec(rest)) && 0 < p <= PrecCall
    ensures Parse(Print(e) + rest, p) == Loop(e, rest, p)
    decreases e, 1
  {
    match e
    case Atom(id) => assert Prefix([Primary(id)] + rest) == Some(Parsed(e, rest));
    case Group(x) =>
      Regroup([LeftParen], Print(x), [RightParen]);
      Regroup([LeftParen], Print(x) + [RightParen], rest);
      Regroup(Print(x), [RightParen], rest);
      ParseExactly(x, [RightParen] + rest, PrecLowest);
    case Unary(op, x) =>
      Regroup([UnToken(op)], Print(x), rest);
      NoLines(x, rest);
      ParseExactly(x, rest, PrecCall);
      PrefixUnary(op, Print(x) + rest);
    case Binary(op, l, r) =>
      OpPrecs(op);
      CompleteInfix(e, Operator(op), l, r, rest, p, OpPrec(op), OpPrec(op) + 1);
    case And(l, r) => CompleteInfix(e, AmpAmp, l, r, rest, p, PrecLogicalAnd, PrecLogicalAnd);
    case Or(l, r) => CompleteInfix(e, PipePipe, l, r, rest, p, PrecLogicalOr, PrecLogicalOr);
    case Cond(c, y, n) => CompleteCond(c, y, n, rest, p);
    case Index(x, args) => CompleteIndex(x, args, rest, p);
  }

  lemma PrefixUnary(op: UnOp, ts: seq<Token>)
    ensures Prefix([UnToken(op)] + ts) == ParseUnary(op, [UnToken(op)] + ts)
    ensures ([UnToken(op)] + ts)[1..] == ts
  {
  }

  lemma {:induction false} CompleteInfix(e: Expr, t: Token, l: Expr, r: Expr, rest: seq<Token>, p: nat, q: nat, right: nat)
    requires t.Operator? || t == AmpAmp || t == PipePipe
    requires e == Joined(l, t, r) && l < e && r < e && 0 < p <= q <= right <= PrecCall
    requires RulePrec(t) == q && right == (if t.Operator? then q + 1 else q)
    requires Proper(l) && Proper(r) && LeftOk(l, q) && Tight(r, right) && NextPrec(rest) < right
    ensures Parse(Print(e) + rest, p) == Loop(e, rest, p)
    decreases e, 0
  {
    var after := Print(r) + rest;
    assert Print(e) + rest == Print(l) + ([t] + after) by {
      hide Print;
      assert Print(e) == Print(l) + [t] + Print(r) by { PrintJoined(l, t, r); }
      Regroup(Print(l) + [t], Print(r), rest);
      Regroup(Print(l), [t], after);
    }
    LeftTight(l, q, p);
    Complete(l, [t] + after, p);
    NoLines(r, rest);
    ParseExactly(r, rest, right);
    hide Parse, Print, OpPrec, Proper, Tight, LeftOk;
    assert ([t] + after)[1..] == after;
    assert Infix(l, [t] + after) == Some(Parsed(e, rest));
  }

  lemma PrintJoined(l: Expr, t: Token, r: Expr)
    requires t.Operator? || t == AmpAmp || t == PipePipe
    ensures Print(Joined(l, t, r)) == Print(l) + [t] + Print(r)
  {
  }

  lemma CondTokens(c: Expr, y: Expr, n: Expr, rest: seq<Token>)
    ensures Print(Cond(c, y, n)) + rest == Print(c) + ([Question] + (Print(y) + ([Colon] + (Print(n) + rest))))
  {
    var a, b, d, f := [Question], Print(y), [Colon], Print(n);
    assert Print(Cond(c, y, n)) == Print(c) + a + b + d + f;
    hide Print;
    Regroup(Print(c) + a + b + d, f, rest);
    Regroup4(Print(c), a, b, d, f + rest);
  }

  lemma {:induction false} CompleteCond(c: Expr, y: Expr, n: Expr, rest: seq<Token>, p: nat)
    requires var e := Cond(c, y, n); Proper(e) && Tight(e, p) && LeftOk(e, NextPrec(rest)) && 0 < p <= PrecCall
    ensures Parse(Print(Cond(c, y, n)) + rest, p) == Loop(Cond(c, y, n), rest, p)
    decreases Cond(c, y, n), 0
  {
    var afterColon := Print(n) + rest;
    var afterMark := Print(y) + ([Colon] + afterColon);
    CondTokens(c, y, n, rest);
    LeftTight(c, PrecAssignment, p);
    Complete(c, [Question] + afterMark, p);
    NoLines(y, [Colon] + afterColon);
    ParseExactly(y, [Colon] + afterColon, PrecConditional);
    NoLines(n, rest);
    ParseExactly(n, rest, PrecAssignment);
    hide Parse, Print, Proper, Tight, LeftOk;
    assert ([Question] + afterMark)[1..] == afterMark && ([Colon] + afterColon)[1..] == afterColon;
    assert Infix(c, [Question] + afterMark) == Some(Parsed(Cond(c, y, n), rest));
  }

  lemma {:induction false} CompleteIndex(x: Expr, args: Args, rest: seq<Token>, p: nat)
    requires var e := Index(x, args); Proper(e) && 0 < p <= PrecCall
    ensures Parse(Print(Index(x, args)) + rest, p) == Loop(Index(x, args), rest, p)
    decreases Index(x, args), 0
  {
    var afterArgs := [RightBracket] + rest;
    var after := PrintArgs(args) + afterArgs;
    assert Print(Index(x, args)) + rest == Print(x) + ([LeftBracket] + after) by {
      var a, b, d := [LeftBracket], PrintArgs(args), [RightBracket];
      assert Print(Index(x, args)) == Print(x) + a + b + d;
      hide Print;
      Regroup4(Print(x), a, b, d, rest);
    }
    LeftTight(x, PrecCall, p);
    Complete(x, [LeftBracket] + after, p);
    ArgsExactly(args, afterArgs, 1);
    hide Parse, Print, PrintArgs, ParseArgs, Proper, Tight, LeftOk;
    assert ([LeftBracket] + after)[1..] == after && afterArgs[1..] == rest;
    assert Infix(x, [LeftBracket] + after) == Some(Parsed(Index(x, args), rest));
  }

  lemma {:induction false} ArgsExactly(args: Args, rest: seq<Token>, n: nat)
    requires ProperArgs(args) && Count(args) + n <= MaxParameters + 1 && NextPrec(rest) == PrecNone && (rest == [] || rest[0] != Comma)
    ensures ParseArgs(PrintArgs(args) + rest, n) == Some(Parsed(args, rest))
    decreases args, 0
  {
    match args
    case Last(e) =>
      NoLines(e, rest);
      ParseExactly(e, rest, PrecLowest);
    case More(e, more) =>
      var after := PrintArgs(more) + rest;
      assert PrintArgs(args) + rest == Print(e) + ([Comma] + after) by {
        Regroup(Print(e) + [Comma], PrintArgs(more), rest);
        Regroup(Print(e), [Comma], after);
      }
      NoLines(e, [Comma] + after);
      ParseExactly(e, [Comma] + after, PrecLowest);
      ArgsExactly(more, rest, n + 1);
      assert ([Comma] + after)[1..] == after;
  }

  /** The tokens of a tree belong to no other tree. */
  lemma Unambiguous(e: Expr, e': Expr)
    requires Proper(e) && Proper(e') && Print(e) == Print(e')
    ensures e == e'
  {
    LowestFits(e);
    LowestFits(e');
    ParseExactly(e, [], PrecLowest);
    ParseExactly(e', [], PrecLowest);
  }

  lemma LowestFits(e: Expr)
    ensures Tight(e, PrecLowest)
  {
  }

  // ----- Newlines -----

  /** Both find an error, or the same, and the second one leaves the tokens of the first one without newlines that may be there. */
  ghost predicate Alike<T>(r: Option<Parsed<T>>, r': Option<Parsed<T>>) {
    if r.None? then r'.None? else r'.Some? && r'.value.value == r.value.value && r'.value.rest == Unbroken(r.value.rest, false)
  }

  lemma ExpectAlike(ts: seq<Token>, t: Token)
    requires t != Line && t != RightBracket
    ensures match Expect(ts, t)
            case None => Expect(Unbroken(ts, false), t) == None
            case Some(r) => Expect(Unbroken(ts, false), t) == Some(Unbroken(r, Opener(t)))
  {
    if ts != [] && ts[0] == Line {
      FirstUnbroken(ts);
    }
  }

  /** Newlines stay, or a closing bracket follows. */
  lemma {:induction false} FirstUnbroken(ts: seq<Token>)
    requires ts != [] && ts[0] == Line
    ensures var u := Unbroken(ts, false); u != [] && u[0] == if Closes(ts) then RightBracket else Line
  {
    if Closes(ts[1..]) && ts[1] == Line {
      FirstUnbroken(ts[1..]);
    }
  }

  lemma {:induction false} BracketAlike(ts: seq<Token>)
    ensures match Expect(SkipLines(ts), RightBracket)
            case None => Expect(SkipLines(Unbroken(ts, false)), RightBracket) == None
            case Some(r) => Expect(SkipLines(Unbroken(ts, false)), RightBracket) == Some(Unbroken(r, false))
  {
    if ts != [] && ts[0] == Line {
      BracketAlike(ts[1..]);
      if Closes(ts) {
        UnbrokenClose(ts);
      }
    }
  }

  lemma NextAlike(ts: seq<Token>)
    ensures NextPrec(Unbroken(ts, false)) == NextPrec(ts)
  {
    if ts != [] && ts[0] == Line {
      FirstUnbroken(ts);
    }
  }

  lemma {:induction false} Skipped(ts: seq<Token>)
    ensures SkipLines(Unbroken(ts, true)) == Unbroken(ts, true) == Unbroken(SkipLines(ts), false)
  {
    if ts != [] && ts[0] == Line {
      Skipped(ts[1..]);
    }
  }

  /** The newlines that may be there make no difference. */
  lemma {:induction false} ParseAlike(ts: seq<Token>, p: nat)
    ensures Alike(Parse(ts, p), Parse(Unbroken(ts, false), p))
    decreases |ts|, 4
  {
    PrefixAlike(ts);
    var e := Prefix(ts);
    if e.Some? {
      LoopAlike(e.value.value, e.value.rest, p);
    }
  }

  lemma {:induction false} PrefixAlike(ts: seq<Token>)
    ensures Alike(Prefix(ts), Prefix(Unbroken(ts, false)))
    decreases |ts|, 2
  {
    if ts != [] {
      if ts[0] == Line {
        FirstUnbroken(ts);
      } else {
        FirstStays(ts);
        var u := Unbroken(ts, false);
        assert u[1..] == Unbroken(ts[1..], Opener(ts[0]));
        match ts[0]
        case LeftParen =>
          ParseAlike(ts[1..], PrecLowest);
          var e := Parse(ts[1..], PrecLowest);
          if e.Some? {
            ExpectAlike(e.value.rest, RightParen);
          }
        case Operator(Minus) => UnaryAlike(Negate, ts);
        case BangToken => UnaryAlike(Bang, ts);
        case TildeToken => UnaryAlike(Tilde, ts);
        case _ =>
      }
    }
  }

  /** After a token that ignores newlines. */
  lemma {:induction false} OperandAlike(ts: seq<Token>, p: nat)
    requires ts != [] && Opener(ts[0])
    ensures Unbroken(ts, false) == [ts[0]] + Unbroken(ts[1..], true)
    ensures Alike(Parse(SkipLines(ts[1..]), p), Parse(SkipLines(Unbroken(ts, false)[1..]), p))
    decreases |ts|, 0
  {
    Skipped(ts[1..]);
    ParseAlike(SkipLines(ts[1..]), p);
    assert Unbroken(ts, false)[1..] == Unbroken(ts[1..], true);
  }

  lemma {:induction false} UnaryAlike(op: UnOp, ts: seq<Token>)
    requires ts != [] && ts[0] == UnToken(op)
    ensures Alike(ParseUnary(op, ts), ParseUnary(op, Unbroken(ts, false)))
    decreases |ts|, 1
  {
    OperandAlike(ts, PrecUnary + 1);
    hide Parse, SkipLines, Unbroken;
  }

  lemma {:induction false} LoopAlike(left: Expr, ts: seq<Token>, p: nat)
    ensures Alike(Loop(left, ts, p), Loop(left, Unbroken(ts, false), p))
    decreases |ts|, 3
  {
    NextAlike(ts);
    if NextPrec(ts) != PrecNone {
      InfixAlike(left, ts);
      var e := Infix(left, ts);
      if e.Some? {
        LoopAlike(e.value.value, e.value.rest, p);
      }
    }
    hide Infix, Unbroken, RulePrec;
  }

  lemma {:induction false} InfixAlike(left: Expr, ts: seq<Token>)
    requires NextPrec(ts) != PrecNone
    ensures NextPrec(Unbroken(ts, false)) != PrecNone && Alike(Infix(left, ts), Infix(left, Unbroken(ts, false)))
    decreases |ts|, 2
  {
    NextAlike(ts);
    FirstStays(ts);
    match ts[0]
    case Operator(op) => OperandAlike(ts, OpPrec(op) + 1);
    case AmpAmp => OperandAlike(ts, PrecLogicalAnd);
    case PipePipe => OperandAlike(ts, PrecLogicalOr);
    case Question => QuestionAlike(left, ts);
    case LeftBracket => SubscriptAlike(left, ts);
    hide Parse, ParseArgs, SkipLines, Unbroken, Expect;
  }

  lemma {:induction false} QuestionAlike(left: Expr, ts: seq<Token>)
    requires ts != [] && ts[0] == Question
    ensures NextPrec(Unbroken(ts, false)) != PrecNone && Alike(Infix(left, ts), Infix(left, Unbroken(ts, false)))
    decreases |ts|, 1
  {
    OperandAlike(ts, PrecConditional);
    var y := Parse(SkipLines(ts[1..]), PrecConditional);
    if y.Some? {
      ExpectAlike(y.value.rest, Colon);
      var rest := Expect(y.value.rest, Colon);
      if rest.Some? {
        Skipped(rest.value);
        ParseAlike(SkipLines(rest.value), PrecAssignment);
      }
    }
    hide Parse, ParseArgs, SkipLines, Unbroken, Expect;
  }

  lemma {:induction false} SubscriptAlike(left: Expr, ts: seq<Token>)
    requires ts != [] && ts[0] == LeftBracket
    ensures NextPrec(Unbroken(ts, false)) != PrecNone && Alike(Infix(left, ts), Infix(left, Unbroken(ts, false)))
    decreases |ts|, 1
  {
    FirstStays(ts);
    assert Unbroken(ts, false)[1..] == Unbroken(ts[1..], true);
    ArgsAlike(ts[1..], 1);
    var args := ParseArgs(ts[1..], 1);
    if args.Some? {
      BracketAlike(args.value.rest);
    }
    hide Parse, ParseArgs, SkipLines, Unbroken, Expect;
  }

  lemma {:induction false} ArgsAlike(ts: seq<Token>, n: nat)
    ensures Alike(ParseArgs(ts, n), ParseArgs(Unbroken(ts, true), n))
    decreases |ts|, 5
  {
    Skipped(ts);
    ParseAlike(SkipLines(ts), PrecLowest);
    var u := Unbroken(ts, true);
    var e, e' := Parse(SkipLines(ts), PrecLowest), Parse(SkipLines(u), PrecLowest);
    hide Parse, SkipLines, Unbroken;
    if e.Some? && n != MaxParameters + 1 {
      ExpectAlike(e.value.rest, Comma);
      var comma := Expect(e.value.rest, Comma);
      if comma.Some? {
        ArgsAlike(comma.value, n + 1);
        assert Expect(e'.value.rest, Comma) == Some(Unbroken(comma.value, true));
      }
      hide Expect;
    }
  }

  /** The tokens without newlines. */
  function Strip(ts: seq<Token>): seq<Token> {
    if ts == [] then [] else (if ts[0] == Line then [] else [ts[0]]) + Strip(ts[1..])
  }

  predicate OnlyLines(ts: seq<Token>, a: nat, b: nat)
    requires b <= |ts|
  {
    forall k :: a <= k < b ==> ts[k] == Line
  }

  /** The newline at i comes after an operator, a colon, a comma or an opening bracket, or before a closing
      bracket, with only newlines between. */
  ghost predicate MayBreak(ts: seq<Token>, i: nat)
    requires i < |ts|
  {
    || (exists j: nat :: j < i && Opener(ts[j]) && OnlyLines(ts, j + 1, i))
    || (exists j: nat :: i < j < |ts| && ts[j] == RightBracket && OnlyLines(ts, i + 1, j))
  }

  ghost predicate LinesOk(ts: seq<Token>) {
    forall i: nat :: i < |ts| && ts[i] == Line ==> MayBreak(ts, i)
  }

  lemma {:induction false} ClosesMeans(ts: seq<Token>)
    ensures Closes(ts) <==> exists j: nat :: j < |ts| && ts[j] == RightBracket && OnlyLines(ts, 0, j)
  {
    if ts != [] && ts[0] == Line {
      ClosesMeans(ts[1..]);
      if Closes(ts) {
        var j: nat :| j < |ts[1..]| && ts[1..][j] == RightBracket && OnlyLines(ts[1..], 0, j);
        assert forall k :: 1 <= k < j + 1 ==> ts[k] == ts[1..][k - 1];
        assert ts[j + 1] == RightBracket && OnlyLines(ts, 0, j + 1);
      }
      if j: nat :| j < |ts| && ts[j] == RightBracket && OnlyLines(ts, 0, j) {
        assert ts[1..][j - 1] == RightBracket && OnlyLines(ts[1..], 0, j - 1);
      }
    } else if ts != [] && ts[0] == RightBracket {
      assert OnlyLines(ts, 0, 0);
    }
  }

  lemma MayBreakNext(ts: seq<Token>, i: nat)
    requires 0 < i < |ts|
    ensures MayBreak(ts, i) <==> MayBreak(ts[1..], i - 1) || (Opener(ts[0]) && OnlyLines(ts, 1, i))
  {
    var us := ts[1..];
    if j: nat :| j < i && Opener(ts[j]) && OnlyLines(ts, j + 1, i) {
      if j > 0 {
        assert Opener(us[j - 1]) && OnlyLines(us, j - 1 + 1, i - 1);
      }
    }
    if j: nat :| i < j < |ts| && ts[j] == RightBracket && OnlyLines(ts, i + 1, j) {
      assert us[j - 1] == RightBracket && OnlyLines(us, i - 1 + 1, j - 1);
    }
    if j: nat :| j < i - 1 && Opener(us[j]) && OnlyLines(us, j + 1, i - 1) {
      assert forall k :: j + 2 <= k < i ==> ts[k] == us[k - 1];
      assert Opener(ts[j + 1]) && OnlyLines(ts, j + 1 + 1, i);
    }
    if j: nat :| i - 1 < j < |us| && us[j] == RightBracket && OnlyLines(us, i - 1 + 1, j) {
      assert forall k :: i + 1 <= k < j + 1 ==> ts[k] == us[k - 1];
      assert ts[j + 1] == RightBracket && OnlyLines(ts, i + 1, j + 1);
    }
    if Opener(ts[0]) && OnlyLines(ts, 1, i) {
      assert OnlyLines(ts, 0 + 1, i);
    }
  }

  ghost predicate MayBreakFrom(ts: seq<Token>, open: bool, i: nat)
    requires i < |ts|
  {
    MayBreak(ts, i) || (open && OnlyLines(ts, 0, i))
  }

  predicate NoLine(ts: seq<Token>) {
    forall k :: 0 <= k < |ts| ==> ts[k] != Line
  }

  lemma MayBreakFromNext(ts: seq<Token>, open: bool, i: nat)
    requires 0 < i < |ts|
    ensures MayBreakFrom(ts, open, i) <==> MayBreakFrom(ts[1..], if ts[0] == Line then open else Opener(ts[0]), i - 1)
  {
    MayBreakNext(ts, i);
    assert OnlyLines(ts, 1, i) <==> OnlyLines(ts[1..], 0, i - 1) by {
      if OnlyLines(ts[1..], 0, i - 1) {
        assert forall k :: 1 <= k < i ==> ts[k] == ts[1..][k - 1];
      }
    }
    assert OnlyLines(ts, 0, i) <==> ts[0] == Line && OnlyLines(ts, 1, i);
    hide MayBreak;
  }

  /** No newline is left exactly if each may be where it is. */
  lemma {:induction false} NoneLeft(ts: seq<Token>, open: bool)
    ensures NoLine(Unbroken(ts, open)) <==> forall i: nat :: i < |ts| && ts[i] == Line ==> MayBreakFrom(ts, open, i)
  {
    if ts != [] {
      var next := if ts[0] == Line then open else Opener(ts[0]);
      NoneLeft(ts[1..], next);
      FirstLine(ts, open);
      RestBreaks(ts, open, next);
      NoLineFirst(ts[0], Unbroken(ts[1..], next));
    }
    hide MayBreakFrom;
  }

  lemma RestBreaks(ts: seq<Token>, open: bool, next: bool)
    requires ts != [] && next == if ts[0] == Line then open else Opener(ts[0])
    ensures (forall i: nat :: i < |ts| && ts[i] == Line ==> MayBreakFrom(ts, open, i)) <==>
      (ts[0] == Line ==> MayBreakFrom(ts, open, 0)) && forall i: nat :: i < |ts[1..]| && ts[1..][i] == Line ==> MayBreakFrom(ts[1..], next, i)
  {
    hide MayBreakFrom;
    forall i: nat | 0 < i < |ts|
      ensures MayBreakFrom(ts, open, i) <==> MayBreakFrom(ts[1..], next, i - 1)
    {
      MayBreakFromNext(ts, open, i);
    }
    if forall i: nat :: i < |ts| && ts[i] == Line ==> MayBreakFrom(ts, open, i) {
      forall i: nat | i < |ts[1..]| && ts[1..][i] == Line
        ensures MayBreakFrom(ts[1..], next, i)
      {
        assert MayBreakFrom(ts, open, i + 1);
      }
    }
  }

  lemma FirstLine(ts: seq<Token>, open: bool)
    requires ts != []
    ensures ts[0] == Line ==> (MayBreakFrom(ts, open, 0) <==> open || Closes(ts))
  {
    ClosesMeans(ts);
    assert OnlyLines(ts, 0, 0);
    if ts[0] == Line && Closes(ts) {
      var j: nat :| j < |ts| && ts[j] == RightBracket && OnlyLines(ts, 0, j);
      assert j > 0 && OnlyLines(ts, 0 + 1, j);
    }
    if ts[0] == Line && MayBreak(ts, 0) {
      var j: nat :| 0 < j < |ts| && ts[j] == RightBracket && OnlyLines(ts, 0 + 1, j);
      assert OnlyLines(ts, 0, j);
    }
  }

  lemma NoLineFirst(t: Token, ts: seq<Token>)
    ensures NoLine([t] + ts) <==> t != Line && NoLine(ts)
  {
    if NoLine([t] + ts) {
      assert ([t] + ts)[0] == t;
      assert forall k :: 0 <= k < |ts| ==> ts[k] == ([t] + ts)[k + 1];
    }
  }

  lemma {:induction false} StripNone(ts: seq<Token>)
    requires NoLine(ts)
    ensures Strip(ts) == ts
  {
    if ts != [] {
      StripNone(ts[1..]);
    }
  }

  lemma {:induction false} StripUnbroken(ts: seq<Token>, open: bool)
    ensures Strip(Unbroken(ts, open)) == Strip(ts)
  {
    if ts != [] {
      StripUnbroken(ts[1..], if ts[0] == Line then open else Opener(ts[0]));
      hide Closes;
    }
  }

  lemma NoLineJoin(a: seq<Token>, b: seq<Token>)
    requires NoLine(a) && NoLine(b)
    ensures NoLine(a + b)
  {
  }

  lemma {:induction false} PrintNoLine(e: Expr)
    ensures NoLine(Print(e))
  {
    match e
    case Atom(_) =>
    case Group(x) => PrintNoLine(x);
    case Unary(_, x) => PrintNoLine(x);
    case Binary(_, l, r) => PrintNoLine(l); PrintNoLine(r);
    case And(l, r) => PrintNoLine(l); PrintNoLine(r);
    case Or(l, r) => PrintNoLine(l); PrintNoLine(r);
    case Cond(c, y, n) => PrintNoLine(c); PrintNoLine(y); PrintNoLine(n);
    case Index(x, args) => PrintNoLine(x); PrintArgsNoLine(args);
  }

  lemma {:induction false} PrintArgsNoLine(args: Args)
    ensures NoLine(PrintArgs(args))
  {
    match args
    case Last(e) => PrintNoLine(e);
    case More(e, rest) => PrintNoLine(e); PrintArgsNoLine(rest);
  }

  lemma UnbrokenTokens(ts: seq<Token>, e: Expr)
    ensures Unbroken(ts, false) == Print(e) <==> Strip(ts) == Print(e) && LinesOk(ts)
  {
    NoneLeft(ts, false);
    StripUnbroken(ts, false);
    PrintNoLine(e);
    StripNone(Print(e));
    if NoLine(Unbroken(ts, false)) {
      StripNone(Unbroken(ts, false));
    }
    hide Print, Strip, Unbroken, NoLine, MayBreak;
  }

  lemma NothingLeft(ts: seq<Token>)
    requires Unbroken(ts, false) == []
    ensures ts == []
  {
    if ts != [] && ts[0] == Line {
      FirstUnbroken(ts);
    }
  }

  /** Exactly the tokens of proper trees are accepted as an expression, with newlines only where they are ignored, and give that tree. */
  lemma AcceptedExactly(ts: seq<Token>, e: Expr)
    ensures Parse(ts, PrecLowest) == Some(Parsed(e, [])) <==> Proper(e) && Strip(ts) == Print(e) && LinesOk(ts)
  {
    UnbrokenTokens(ts, e);
    if Parse(ts, PrecLowest) == Some(Parsed(e, [])) {
      ParseSound(ts, PrecLowest);
      assert Print(e) + [] == Print(e);
    }
    if Proper(e) && Unbroken(ts, false) == Print(e) {
      LowestFits(e);
      ParseExactly(e, [], PrecLowest);
      assert Print(e) + [] == Print(e);
      ParseAlike(ts, PrecLowest);
      NothingLeft(Parse(ts, PrecLowest).value.rest);
    }
    hide *;
  }

  // ----- The code -----

  /** The tree that is built: parentheses leave no node. */
  function Erase(e: Expr): Expr {
    match e
    case Atom(_) => e
    case Group(x) => Erase(x)
    case Unary(op, x) => Unary(op, Erase(x))
    case Binary(op, l, r) => Binary(op, Erase(l), Erase(r))
    case And(l, r) => And(Erase(l), Erase(r))
    case Or(l, r) => Or(Erase(l), Erase(r))
    case Cond(c, y, n) => Cond(Erase(c), Erase(y), Erase(n))
    case Index(x, args) => Index(Erase(x), EraseArgs(args))
  }

  function EraseArgs(args: Args): Args {
    match args
    case Last(e) => Last(Erase(e))
    case More(e, rest) => More(Erase(e), EraseArgs(rest))
  }

  const EndOfFile := Other(-1)
  const Dummy := Atom(0)

  class Parser {
    const tokens: seq<Token>
    var pos: nat
    var previous: Token
    var hasError: bool

    ghost predicate Valid()
      reads this
    {
      pos <= |tokens|
    }

    /** The tokens from the current one on. */
    ghost function Rest(): seq<Token>
      requires Valid()
      reads this
    {
      tokens[pos..]
    }

    constructor (ts: seq<Token>)
      ensures Valid() && Rest() == tokens == ts && !hasError
    {
      tokens := ts;
      pos := 0;
      previous := EndOfFile;
      hasError := false;
    }

    function Current(): Token
      requires Valid()
      reads this
    {
      if pos < |tokens| then tokens[pos] else EndOfFile
    }

    /** At the end of the file there is no further token to go to. */
    method NextToken()
      requires Valid()
      modifies this`pos, this`previous
      ensures Valid() && previous == old(Current())
      ensures if old(pos) < |tokens| then pos == old(pos) + 1 && Rest() == old(Rest())[1..] else pos == old(pos)
    {
      previous := Current();
      if pos < |tokens| {
        pos := pos + 1;
      }
    }

    method Match(t: Token) returns (b: bool)
      requires Valid() && t != EndOfFile
      modifies this`pos, this`previous
      ensures Valid() && old(pos) <= pos
      ensures b == Expect(old(Rest()), t).Some? && Rest() == if b then Expect(old(Rest()), t).value else old(Rest())
    {
      if Current() != t {
        return false;
      }
      NextToken();
      return true;
    }

    /** If another token is found, an error is reported, and the other one is skipped if the
        expected one follows. */
    method Consume(t: Token)
      requires Valid() && t != EndOfFile
      modifies this`pos, this`previous, this`hasError
      ensures Valid() && old(pos) <= pos && (old(hasError) ==> hasError)
      ensures match Expect(old(Rest()), t)
              case Some(r) => Rest() == r && hasError == old(hasError)
              case None => hasError
    {
      NextToken();
      if previous != t {
        hasError := true;
        if Current() == t {
          NextToken();
        }
      }
    }

    method IgnoreNewlines()
      requires Valid()
      modifies this`pos, this`previous
      ensures Valid() && old(pos) <= pos && Rest() == SkipLines(old(Rest()))
    {
      while Current() == Line
        invariant Valid() && old(pos) <= pos && SkipLines(Rest()) == SkipLines(old(Rest()))
        decreases |tokens| - pos
      {
        NextToken();
      }
    }

    /** Where the specification finds a tree, that tree has been built and the tokens after it are
        left; where it finds an error, an error has been reported. */
    ghost predicate Agrees(r: Option<Parsed<Expr>>, e: Expr, before: bool)
      requires Valid()
      reads this
    {
      match r
      case Some(x) => e == Erase(x.value) && Rest() == x.rest && hasError == before
      case None => hasError
    }

    method ParsePrecedence(p: nat) returns (e: Expr)
      requires Valid() && p > PrecNone
      modifies this
      ensures Valid() && old(pos) <= pos && (old(hasError) ==> hasError)
      ensures Agrees(Parse(old(Rest()), p), e, old(hasError))
      decreases |tokens| - pos, 4
    {
      ghost var target, start := Parse(Rest(), p), Rest();
      NextToken();
      if !HasPrefix(previous) {
        hasError := true;
        return Dummy;
      }
      assert pos > old(pos);
      e := CallPrefix(start);
      ghost var tree := Prefix(start);
      ghost var t := if tree.Some? then tree.value.value else Dummy;
      while p <= RulePrec(Current())
        invariant Valid() && old(pos) < pos && (old(hasError) ==> hasError)
        invariant (target == Loop(t, Rest(), p) && e == Erase(t) && hasError == old(hasError)) || (target.None? && hasError)
        decreases |tokens| - pos
      {
        ghost var rest, ok := Rest(), target == Loop(t, Rest(), p) && e == Erase(t) && hasError == old(hasError);
        NextToken();
        e := CallInfix(e, if ok then t else e, rest);
        if ok {
          var next := Infix(t, rest);
          t := if next.Some? then next.value.value else Dummy;
        }
      }
    }

    /** The function in the prefix column for the token that has just been taken. */
    method CallPrefix(ghost start: seq<Token>) returns (e: Expr)
      requires Valid() && start != [] && start[0] == previous && Rest() == start[1..] && HasPrefix(previous)
      modifies this
      ensures Valid() && old(pos) <= pos && (old(hasError) ==> hasError)
      ensures Agrees(Prefix(start), e, old(hasError))
      decreases |tokens| - pos, 6
    {
      match previous
      case Primary(id) => e := Atom(id);
      case LeftParen => e := Grouping();
      case Operator(_) => e := UnaryOp(Negate, start);
      case BangToken => e := UnaryOp(Bang, start);
      case TildeToken => e := UnaryOp(Tilde, start);
    }

    method Grouping() returns (e: Expr)
      requires Valid()
      modifies this
      ensures Valid() && old(pos) <= pos && (old(hasError) ==> hasError)
      ensures Agrees(Prefix([LeftParen] + old(Rest())), e, old(hasError))
      decreases |tokens| - pos, 5
    {
      ghost var ts := Rest();
      assert ([LeftParen] + ts)[1..] == ts;
      e := ParsePrecedence(PrecLowest);
      Consume(RightParen);
    }

    method UnaryOp(op: UnOp, ghost start: seq<Token>) returns (e: Expr)
      requires Valid() && start != [] && Rest() == start[1..]
      modifies this
      ensures Valid() && old(pos) <= pos && (old(hasError) ==> hasError)
      ensures Agrees(ParseUnary(op, start), e, old(hasError))
      decreases |tokens| - pos, 5
    {
      IgnoreNewlines();
      var x := ParsePrecedence(PrecUnary + 1);
      e := Unary(op, x);
    }

    /** The function in the infix column for the token that has just been taken. */
    method CallInfix(left: Expr, ghost l: Expr, ghost start: seq<Token>) returns (e: Expr)
      requires Valid() && start != [] && start[0] == previous && Rest() == start[1..] && RulePrec(previous) != PrecNone
      modifies this
      ensures Valid() && old(pos) <= pos && (old(hasError) ==> hasError)
      ensures left == Erase(l) ==> Agrees(Infix(l, start), e, old(hasError))
      decreases |tokens| - pos, 8
    {
      hide Parse, ParseArgs, OpPrec;
      match previous
      case Operator(op) => e := InfixOp(op, left, l, start);
      case AmpAmp => e := LogicalAnd(left, l, start);
      case PipePipe => e := LogicalOr(left, l, start);
      case Question =>
        e := Conditional(left, l, start);
      case LeftBracket =>
        e := Subscript(left, l, start);
    }

    method InfixOp(op: BinOp, left: Expr, ghost l: Expr, ghost start: seq<Token>) returns (e: Expr)
      requires Valid() && start != [] && start[0] == Operator(op) && Rest() == start[1..]
      modifies this
      ensures Valid() && old(pos) <= pos && (old(hasError) ==> hasError)
      ensures left == Erase(l) ==> Agrees(Infix(l, start), e, old(hasError))
      decreases |tokens| - pos, 5
    {
      hide Parse, ParseArgs, OpPrec;
      IgnoreNewlines();
      var r := ParsePrecedence(RulePrec(Operator(op)) + 1);
      e := Binary(op, left, r);
    }

    method LogicalAnd(left: Expr, ghost l: Expr, ghost start: seq<Token>) returns (e: Expr)
      requires Valid() && start != [] && start[0] == AmpAmp && Rest() == start[1..]
      modifies this
      ensures Valid() && old(pos) <= pos && (old(hasError) ==> hasError)
      ensures left == Erase(l) ==> Agrees(Infix(l, start), e, old(hasError))
      decreases |tokens| - pos, 5
    {
      hide Parse, ParseArgs, OpPrec;
      IgnoreNewlines();
      var r := ParsePrecedence(PrecLogicalAnd);
      e := And(left, r);
    }

    method LogicalOr(left: Expr, ghost l: Expr, ghost start: seq<Token>) returns (e: Expr)
      requires Valid() && start != [] && start[0] == PipePipe && Rest() == start[1..]
      modifies this
      ensures Valid() && old(pos) <= pos && (old(hasError) ==> hasError)
      ensures left == Erase(l) ==> Agrees(Infix(l, start), e, old(hasError))
      decreases |tokens| - pos, 5
    {
      hide Parse, ParseArgs, OpPrec;
      IgnoreNewlines();
      var r := ParsePrecedence(PrecLogicalOr);
      e := Or(left, r);
    }

    method Conditional(left: Expr, ghost l: Expr, ghost start: seq<Token>) returns (e: Expr)
      requires Valid() && start != [] && start[0] == Question && Rest() == start[1..]
      modifies this
      ensures Valid() && old(pos) <= pos && (old(hasError) ==> hasError)
      ensures left == Erase(l) ==> Agrees(Infix(l, start), e, old(hasError))
      decreases |tokens| - pos, 5
    {
      hide Parse, ParseArgs, OpPrec, SkipLines;
      IgnoreNewlines();
      var yes := ParsePrecedence(PrecConditional);
      Consume(Colon);
      IgnoreNewlines();
      var no := ParsePrecedence(PrecAssignment);
      e := Cond(left, yes, no);
    }

    method Subscript(left: Expr, ghost l: Expr, ghost start: seq<Token>) returns (e: Expr)
      requires Valid() && start != [] && start[0] == LeftBracket && Rest() == start[1..]
      modifies this
      ensures Valid() && old(pos) <= pos && (old(hasError) ==> hasError)
      ensures left == Erase(l) ==> Agrees(Infix(l, start), e, old(hasError))
      decreases |tokens| - pos, 7
    {
      hide Parse, ParseArgs;
      var args := FinishArgumentList();
      IgnoreNewlines();
      Consume(RightBracket);
      e := Index(left, args);
    }

    /** The arguments; the seventeenth is reported as an error. */
    method FinishArgumentList() returns (args: Args)
      requires Valid()
      modifies this
      ensures Valid() && old(pos) <= pos && (old(hasError) ==> hasError)
      ensures match ParseArgs(old(Rest()), 1)
              case Some(x) => args == EraseArgs(x.value) && Rest() == x.rest && hasError == old(hasError)
              case None => hasError
      decreases |tokens| - pos, 6
    {
      hide Parse, ParseArgs, Gathered, Argued, EraseAll, FromSeq, SkipLines, Expect;
      ghost var target := ParseArgs(Rest(), 1);
      ghost var trees: seq<Expr> := [];
      var es := [];
      var n := 1;
      GatherNone(Rest(), hasError);
      while true
        invariant Valid() && old(pos) <= pos && (old(hasError) ==> hasError) && n >= 1
        invariant Gathered(target, trees, es, Rest(), n, old(hasError), hasError)
        decreases |tokens| - pos
      {
        ghost var start, err := Rest(), hasError;
        var e, comma := Argument(n);
        if !comma {
          GatherLast(target, trees, es, start, n, old(hasError), err, e, Rest(), hasError);
          return FromSeq(es, Last(e));
        }
        trees := GatherMore(target, trees, es, start, n, old(hasError), err, e, Rest(), hasError);
        es := es + [e];
        n := n + 1;
      }
    }

    /** The n-th argument, and the comma after it, if there is one. */
    method Argument(n: nat) returns (e: Expr, comma: bool)
      requires Valid()
      modifies this
      ensures Valid() && old(pos) <= pos && (old(hasError) ==> hasError) && (comma ==> old(pos) < pos)
      ensures Argued(Parse(SkipLines(old(Rest())), PrecLowest), e, comma, Rest(), n, old(hasError), hasError)
      decreases |tokens| - pos, 5
    {
      hide Parse, SkipLines;
      IgnoreNewlines();
      if n == MaxParameters + 1 {
        hasError := true;
      }
      e := ParsePrecedence(PrecLowest);
      comma := Match(Comma);
    }
  }

  /** What parsing the n-th argument leaves, given what the specification parses there. */
  ghost predicate Argued(r: Option<Parsed<Expr>>, e: Expr, comma: bool, rest: seq<Token>, n: nat, before: bool, after: bool) {
    match r
    case None => after
    case Some(x) =>
      && e == Erase(x.value) && comma == Expect(x.rest, Comma).Some? && after == (before || n == MaxParameters + 1)
      && rest == if comma then Expect(x.rest, Comma).value else x.rest
  }

  /** The arguments so far: if there has been no error, the whole list is these and what comes. */
  ghost predicate Gathered(target: Option<Parsed<Args>>, trees: seq<Expr>, es: seq<Expr>, rest: seq<Token>, n: nat, before: bool, after: bool) {
    (target.None? && after) ||
    (n <= MaxParameters + 1 && target == Prepend(trees, ParseArgs(rest, n)) && es == EraseAll(trees) && after == before)
  }

  lemma GatherNone(ts: seq<Token>, err: bool)
    ensures Gathered(ParseArgs(ts, 1), [], [], ts, 1, err, err)
  {
    hide ParseArgs;
  }

  /** One argument with a comma after it. */
  lemma GatherMore(target: Option<Parsed<Args>>, trees: seq<Expr>, es: seq<Expr>, start: seq<Token>, n: nat, before: bool, err: bool,
                   e: Expr, rest: seq<Token>, after: bool) returns (trees': seq<Expr>)
    requires Gathered(target, trees, es, start, n, before, err) && (err ==> after)
    requires Argued(Parse(SkipLines(start), PrecLowest), e, true, rest, n, err, after)
    ensures Gathered(target, trees', es + [e], rest, n + 1, before, after)
  {
    hide Parse, SkipLines, Expect;
    trees' := trees;
    var r := Parse(SkipLines(start), PrecLowest);
    if !(target.None? && err) && r.Some? && n <= MaxParameters {
      PrependMore(trees, r.value.value, ParseArgs(rest, n + 1));
      EraseMore(trees, r.value.value);
      trees' := trees + [r.value.value];
    }
  }

  /** The last argument. */
  lemma GatherLast(target: Option<Parsed<Args>>, trees: seq<Expr>, es: seq<Expr>, start: seq<Token>, n: nat, before: bool, err: bool,
                   e: Expr, rest: seq<Token>, after: bool)
    requires Gathered(target, trees, es, start, n, before, err) && (err ==> after)
    requires Argued(Parse(SkipLines(start), PrecLowest), e, false, rest, n, err, after)
    ensures match target
            case Some(x) => FromSeq(es, Last(e)) == EraseArgs(x.value) && rest == x.rest && after == before
            case None => after
  {
    hide Parse, SkipLines, Expect;
    if target.Some? {
      EraseFromSeq(trees, Last(Parse(SkipLines(start), PrecLowest).value.value));
    }
  }

  /** A list of arguments with others in front of it. */
  function FromSeq(es: seq<Expr>, args: Args): Args {
    if es == [] then args else More(es[0], FromSeq(es[1..], args))
  }

  function Prepend(es: seq<Expr>, r: Option<Parsed<Args>>): Option<Parsed<Args>> {
    if r.None? then None else Some(Parsed(FromSeq(es, r.value.value), r.value.rest))
  }

  function EraseAll(es: seq<Expr>): seq<Expr> {
    seq(|es|, i requires 0 <= i < |es| => Erase(es[i]))
  }

  lemma {:induction false} FromSeqMore(es: seq<Expr>, e: Expr, args: Args)
    ensures FromSeq(es + [e], args) == FromSeq(es, More(e, args))
  {
    if es != [] {
      FromSeqMore(es[1..], e, args);
      assert (es + [e])[1..] == es[1..] + [e];
    }
  }

  lemma PrependMore(es: seq<Expr>, e: Expr, r: Option<Parsed<Args>>)
    ensures Prepend(es + [e], r) ==
      Prepend(es, if r.None? then None else Some(Parsed(More(e, r.value.value), r.value.rest)))
  {
    if r.Some? {
      FromSeqMore(es, e, r.value.value);
    }
  }

  lemma EraseMore(trees: seq<Expr>, e: Expr)
    ensures EraseAll(trees + [e]) == EraseAll(trees) + [Erase(e)]
  {
  }

  lemma {:induction false} EraseFromSeq(trees: seq<Expr>, args: Args)
    ensures EraseArgs(FromSeq(trees, args)) == FromSeq(EraseAll(trees), EraseArgs(args))
  {
    if trees != [] {
      EraseFromSeq(trees[1..], args);
      assert EraseAll(trees)[1..] == EraseAll(trees[1..]);
    }
  }

  predicate HasPrefix(t: Token) {
    t.Primary? || t == LeftParen || t == Operator(Minus) || t == BangToken || t == TildeToken
  }
}

/** Writing expression trees with the brackets the ladder needs, and reading them back. */
module ExprRoundTrip {
  import opened Wrappers
  import opened ExprGrammar

  /** The level at which an operator is parsed; 9 for a name that is no operator. */
  function OpLevel(op: string): nat {
    if op == "OR" then 0
    else if op == "AND" then 1
    else if IsComparison(op) then 4
    else if op in {"+", "-"} then 5
    else if op in {"*", "/"} then 6
    else 9
  }

  function OpToken(op: string): Token {
    if op == "OR" then OrTok else if op == "AND" then AndTok else if op == "*" then StarTok else Op(op)
  }

  /** The highest level whose parse yields the tree without brackets around it. */
  function LevelOf(e: Expr): Level
    requires Printable(e)
  {
    match e
    case BinaryOp(op, _, _) => OpLevel(op)
    case Not(_) => 2
    case IsNull(_, _) => 3
    case Minus(_) => 7
    case _ => 8
  }

  predicate ColumnName(name: string) {
    !IsAggregateName(name)
  }

  /** Trees over known operators and aggregates in which no column that opens a reference is
      called like an aggregate. */
  predicate Printable(e: Expr) {
    match e
    case Constant(_) => true
    case NullLiteral => true
    case Star => false
    case ColumnRef(name, table) => ColumnName(if table.Some? then table.value else name)
    case BinaryOp(op, left, right) => OpLevel(op) < 9 && Printable(left) && Printable(right)
    case Not(operand) => Printable(operand)
    case Minus(operand) => Printable(operand)
    case IsNull(operand, _) => Printable(operand)
    case Aggregate(func, arg) => func in {"COUNT", "SUM", "AVG"} && (arg == Star || Printable(arg))
  }

  /** The tree as an operand of level l, bracketed when it belongs to a lower level. */
  function Print(e: Expr, l: Level): (ts: seq<Token>)
    requires Printable(e)
    ensures ts != [] && ts[0] != Eof
    decreases e, 1
  {
    if LevelOf(e) >= l then Bare(e) else [LParen] + Bare(e) + [RParen]
  }

  function Bare(e: Expr): (ts: seq<Token>)
    requires Printable(e)
    ensures ts != [] && ts[0] != Eof
    decreases e, 0
  {
    match e
    case Constant(v) => [Lit(v)]
    case NullLiteral => [NullTok]
    case ColumnRef(name, table) =>
      if table.Some? then [Ident(table.value), Dot, Ident(name)] else [Ident(name)]
    case BinaryOp(op, left, right) =>
      Print(left, OpLevel(op)) + ([OpToken(op)] + Print(right, OpLevel(op) + 1))
    case Not(operand) => [NotTok] + Print(operand, 2)
    case Minus(operand) => [Op("-")] + Print(operand, 8)
    case IsNull(operand, negated) =>
      Print(operand, 4) + ([Ident("IS")] + ((if negated then [NotTok] else []) + [NullTok]))
    case Aggregate(func, arg) =>
      [Ident(func), LParen] + ((if arg == Star then [StarTok] else Print(arg, 0)) + [RParen])
  }

  /** The token ends an expression parsed at level l: no loop of that level or a higher one goes
      on with it, it is no IS for level 3 to take, and no dot for a name to take. */
  predicate Stops(l: nat, t: Token) {
    (forall k :: l <= k <= 8 ==> Continues(k, t) == None) && (l <= 3 ==> !IsIs(t)) && t != Dot
  }

  // ----- first tokens -----

  /** Only level 2 starts with NOT and only level 7 with a minus. */
  lemma {:induction false} FirstToken(e: Expr, l: Level)
    requires Printable(e)
    ensures l > 2 ==> Print(e, l)[0] != NotTok
    ensures l > 7 ==> Print(e, l)[0] != Op("-")
    ensures Print(e, l)[0] != StarTok
    decreases e
  {
    if LevelOf(e) >= l {
      match e
      case BinaryOp(op, left, _) => FirstToken(left, OpLevel(op));
      case IsNull(operand, _) => FirstToken(operand, 4);
      case _ =>
    }
  }

  // ----- one level at a time -----

  /** A parse that a higher level completes passes through the level unchanged. */
  lemma PassThrough(l: Level, ts: seq<Token>, e: Expr, rest: seq<Token>)
    requires l < 8 && Ended(ts) && Ended(rest) && Parse(l + 1, ts) == Ok(Parsed(e, rest))
    requires l == 2 ==> ts[0] != NotTok
    requires l == 7 ==> ts[0] != Op("-")
    requires Stops(l, rest[0])
    ensures Parse(l, ts) == Ok(Parsed(e, rest))
  {
    assert Continues(l, rest[0]) == None;
  }

  lemma EndedAppend(a: seq<Token>, rest: seq<Token>)
    requires Ended(rest)
    ensures Ended(a + rest)
  {
  }

  /** An operator stops every level above its own and continues its own. */
  lemma OperatorStops(op: string)
    requires OpLevel(op) < 9
    ensures Continues(OpLevel(op), OpToken(op)) == Some(op)
    ensures Stops(OpLevel(op) + 1, OpToken(op))
    ensures Collecting(OpLevel(op))
  {
  }

  lemma UpperNames()
    ensures Upper("IS") == "IS" && Upper("COUNT") == "COUNT" && Upper("SUM") == "SUM" && Upper("AVG") == "AVG"
  {
    assert Upper("S") == "S" && "IS"[1..] == "S";
    assert Upper("T") == "T" && "NT"[1..] == "T" && "UNT"[1..] == "NT";
    assert "OUNT"[1..] == "UNT" && "COUNT"[1..] == "OUNT";
    assert Upper("M") == "M" && "UM"[1..] == "M" && "SUM"[1..] == "UM";
    assert Upper("G") == "G" && "VG"[1..] == "G" && "AVG"[1..] == "VG";
  }

  // ----- one construct at a time -----

  lemma NotStep(x: Expr, mid: seq<Token>, rest: seq<Token>)
    requires Ended(mid) && Parse(2, mid) == Ok(Parsed(x, rest))
    ensures Parse(2, [NotTok] + mid) == Ok(Parsed(Not(x), rest))
  {
    assert ([NotTok] + mid)[1..] == mid;
  }

  lemma MinusStep(x: Expr, mid: seq<Token>, rest: seq<Token>)
    requires Ended(mid) && Parse(8, mid) == Ok(Parsed(x, rest))
    ensures Parse(7, [Op("-")] + mid) == Ok(Parsed(Minus(x), rest))
  {
    assert ([Op("-")] + mid)[1..] == mid;
  }

  function IsTokens(negated: bool): seq<Token> {
    [Ident("IS")] + ((if negated then [NotTok] else []) + [NullTok])
  }

  lemma IsTailStep(x: Expr, negated: bool, rest: seq<Token>)
    requires Ended(rest)
    ensures Ended(IsTokens(negated) + rest)
    ensures IsTail(x, IsTokens(negated) + rest) == Ok(Parsed(IsNull(x, negated), rest))
  {
    UpperNames();
    hide Upper;
    var isNull := IsTokens(negated) + rest;
    assert isNull[0] == Ident("IS") && ([NullTok] + rest)[1..] == rest;
    if negated {
      assert isNull[1..][1..] == [NullTok] + rest && isNull[1..][0] == NotTok;
    } else {
      assert isNull[1..] == [NullTok] + rest;
    }
  }

  lemma IsNullStep(x: Expr, negated: bool, ts: seq<Token>, rest: seq<Token>)
    requires Ended(ts) && Ended(rest) && Parse(4, ts) == Ok(Parsed(x, IsTokens(negated) + rest))
    ensures Parse(3, ts) == Ok(Parsed(IsNull(x, negated), rest))
  {
    IsTailStep(x, negated, rest);
    hide IsTail, IsTokens;
  }

  lemma BracketStep(e: Expr, mid: seq<Token>, rest: seq<Token>)
    requires Ended(mid) && Ended(rest) && Parse(0, mid) == Ok(Parsed(e, [RParen] + rest))
    ensures Parse(8, [LParen] + mid) == Ok(Parsed(e, rest))
  {
    assert ([LParen] + mid)[1..] == mid && ([RParen] + rest)[1..] == rest;
  }

  lemma CallStep(func: string, arg: Expr, mid: seq<Token>, rest: seq<Token>)
    requires Ended(mid) && Ended(rest)
    requires if mid[0] == StarTok then arg == Star && mid == [StarTok] + ([RParen] + rest)
             else Parse(0, mid) == Ok(Parsed(arg, [RParen] + rest))
    ensures ParseAggregate(func, [LParen] + mid) == Ok(Parsed(Aggregate(func, arg), rest))
  {
    hide Parse;
    assert ([LParen] + mid)[1..] == mid && ([RParen] + rest)[1..] == rest;
    assert ([StarTok] + ([RParen] + rest))[1..] == [RParen] + rest;
  }

  lemma AggregateStep(func: string, call: seq<Token>)
    requires func in {"COUNT", "SUM", "AVG"} && Ended(call)
    ensures Parse(8, [Ident(func)] + call) == ParseAggregate(func, call)
  {
    UpperNames();
    hide Upper, ParseAggregate;
    assert ([Ident(func)] + call)[1..] == call;
  }

  lemma ColumnStep(name: string, table: Option<string>, rest: seq<Token>)
    requires Printable(ColumnRef(name, table)) && Ended(rest) && rest[0] != Dot
    ensures Parse(8, Bare(ColumnRef(name, table)) + rest) == Ok(Parsed(ColumnRef(name, table), rest))
  {
    if table.Some? {
      QualifiedStep(table.value, name, rest);
    } else {
      var ts := Bare(ColumnRef(name, None)) + rest;
      assert ts[1..] == rest;
      assert ParsePrimary(ts) == ParseColumn(name, rest);
    }
  }

  lemma QualifiedStep(table: string, name: string, rest: seq<Token>)
    requires Printable(ColumnRef(name, Some(table))) && Ended(rest) && rest[0] != Dot
    ensures Parse(8, Bare(ColumnRef(name, Some(table))) + rest) == Ok(Parsed(ColumnRef(name, Some(table)), rest))
  {
    var ts := Bare(ColumnRef(name, Some(table))) + rest;
    var dot := [Dot] + ([Ident(name)] + rest);
    assert ts[1..] == dot && dot[1..] == [Ident(name)] + rest && ([Ident(name)] + rest)[1..] == rest;
    assert ParsePrimary(ts) == ParseColumn(table, dot);
  }

  lemma WordStep(t: Token, rest: seq<Token>)
    requires Ended(rest) && (t.Lit? || t == NullTok)
    ensures Parse(8, [t] + rest) == Ok(Parsed(if t == NullTok then NullLiteral else Constant(t.value), rest))
  {
    assert ([t] + rest)[1..] == rest;
  }

  lemma OperandsStep(l: Level, op: string, left: Expr, right: Expr, ts: seq<Token>, mid: seq<Token>, rest: seq<Token>)
    requires Collecting(l) && OpLevel(op) == l && Ended(ts) && Ended(mid) && Ended(rest)
    requires Parse(l, ts) == Tail(l, left, [OpToken(op)] + mid)
    requires Parse(l + 1, mid) == Ok(Parsed(right, rest))
    ensures Parse(l, ts) == Tail(l, BinaryOp(op, left, right), rest)
  {
    OperatorStops(op);
    var more := [OpToken(op)] + mid;
    assert more[1..] == mid && more[0] == OpToken(op);
    hide Parse, Continues;
    assert Tail(l, left, more) == Tail(l, BinaryOp(op, left, right), rest);
  }

  lemma Assoc(a: seq<Token>, b: seq<Token>, c: seq<Token>)
    ensures (a + b) + c == a + (b + c)
  {
  }

  lemma PrintOperands(op: string, left: Expr, right: Expr, rest: seq<Token>)
    requires Printable(BinaryOp(op, left, right))
    ensures var l := OpLevel(op);
            Print(BinaryOp(op, left, right), l) + rest
            == Print(left, l) + ([OpToken(op)] + (Print(right, l + 1) + rest))
  {
    var l := OpLevel(op);
    var p, q, t := Print(left, l), Print(right, l + 1), [OpToken(op)];
    assert Print(BinaryOp(op, left, right), l) == p + (t + q);
    hide Print, OpLevel, OpToken;
    Assoc(p, t + q, rest);
    Assoc(t, q, rest);
  }

  lemma PrintBrackets(e: Expr, l: Level, rest: seq<Token>)
    requires Printable(e) && LevelOf(e) < l
    ensures Print(e, l) + rest == [LParen] + (Bare(e) + ([RParen] + rest))
  {
    var b := Bare(e);
    assert Print(e, l) == [LParen] + b + [RParen];
    hide *;
    Assoc([LParen] + b, [RParen], rest);
    Assoc([LParen], b, [RParen] + rest);
  }

  lemma PrintPrefixed(t: Token, p: seq<Token>, rest: seq<Token>)
    ensures ([t] + p) + rest == [t] + (p + rest)
  {
  }

  lemma PrintCall(func: string, arg: seq<Token>, rest: seq<Token>)
    ensures ([Ident(func), LParen] + (arg + [RParen])) + rest
            == [Ident(func)] + ([LParen] + (arg + ([RParen] + rest)))
  {
    assert [Ident(func), LParen] == [Ident(func)] + [LParen];
    Assoc([Ident(func), LParen], arg + [RParen], rest);
    Assoc(arg, [RParen], rest);
    Assoc([Ident(func)], [LParen], arg + ([RParen] + rest));
  }

  // ----- reading back -----

  /** Steps left before the parser reaches the brackets or the root of the tree. */
  function Distance(e: Expr, l: Level): nat
    requires Printable(e)
  {
    if LevelOf(e) < l then 20 - l else LevelOf(e) - l
  }

  /** Reading what was written yields the tree and stops right after it. */
  lemma {:induction false} ParsePrint(e: Expr, l: Level, rest: seq<Token>)
    requires Printable(e) && Ended(rest) && Stops(l, rest[0])
    ensures Ended(Print(e, l) + rest)
    ensures Parse(l, Print(e, l) + rest) == Ok(Parsed(e, rest))
    decreases e, Distance(e, l), 2
  {
    hide Parse, Tail, Upper, Print, Bare, Continues, Stops;
    EndedAppend(Print(e, l), rest);
    if Collecting(l) {
      StopsBelow(l, rest[0]);
      ParseSpine(e, l, rest);
      LoopEnds(l, e, rest);
    } else if LevelOf(e) == l {
      ParseRoot(e, rest);
      PrintBare(e, l);
    } else if l == 8 {
      var close := [RParen] + rest;
      ClosingStops(rest);
      ParsePrint(e, 0, close);
      PrintBare(e, 0);
      BracketStep(e, Bare(e) + close, rest);
      PrintBrackets(e, l, rest);
    } else {
      StopsBelow(l, rest[0]);
      SamePrint(e, l);
      ParsePrint(e, l + 1, rest);
      FirstToken(e, l + 1);
      PassThrough(l, Print(e, l) + rest, e, rest);
    }
  }

  lemma PrintBare(e: Expr, l: Level)
    requires Printable(e) && LevelOf(e) >= l
    ensures Print(e, l) == Bare(e)
  {
  }

  /** What stops a level stops the levels above it. */
  lemma StopsBelow(l: Level, t: Token)
    requires l < 8 && Stops(l, t)
    ensures Stops(l + 1, t)
  {
  }

  lemma ClosingStops(rest: seq<Token>)
    requires Ended(rest)
    ensures Ended([RParen] + rest) && Stops(0, RParen)
  {
  }

  lemma LoopEnds(l: Level, e: Expr, rest: seq<Token>)
    requires Collecting(l) && Ended(rest) && Stops(l, rest[0])
    ensures Tail(l, e, rest) == Ok(Parsed(e, rest))
  {
    assert Continues(l, rest[0]) == None;
  }

  /** A tree that is not a chain of operands, at its own level. */
  lemma {:induction false} ParseRoot(e: Expr, rest: seq<Token>)
    requires Printable(e) && !Collecting(LevelOf(e)) && Ended(rest) && Stops(LevelOf(e), rest[0])
    ensures Parse(LevelOf(e), Bare(e) + rest) == Ok(Parsed(e, rest))
    decreases e, 0, 1
  {
    hide Parse, Upper;
    match e
    case Not(x) =>
      ParsePrint(x, 2, rest);
      NotStep(x, Print(x, 2) + rest, rest);
      PrintPrefixed(NotTok, Print(x, 2), rest);
    case Minus(x) =>
      ParsePrint(x, 8, rest);
      MinusStep(x, Print(x, 8) + rest, rest);
      PrintPrefixed(Op("-"), Print(x, 8), rest);
    case IsNull(x, negated) =>
      var isNull := IsTokens(negated) + rest;
      ParsePrint(x, 4, isNull);
      IsNullStep(x, negated, Print(x, 4) + isNull, rest);
      Assoc(Print(x, 4), IsTokens(negated), rest);
    case Aggregate(func, arg) => ParseCall(func, arg, rest);
    case ColumnRef(name, table) => ColumnStep(name, table, rest);
    case Constant(v) => WordStep(Lit(v), rest);
    case NullLiteral => WordStep(NullTok, rest);
  }

  lemma {:induction false} ParseCall(func: string, arg: Expr, rest: seq<Token>)
    requires Printable(Aggregate(func, arg)) && Ended(rest)
    ensures Parse(8, Bare(Aggregate(func, arg)) + rest) == Ok(Parsed(Aggregate(func, arg), rest))
    decreases Aggregate(func, arg), 0, 0
  {
    hide Parse, Upper, ParseAggregate, IsAggregateName;
    var close := [RParen] + rest;
    var inner := if arg == Star then [StarTok] else Print(arg, 0);
    assert Bare(Aggregate(func, arg)) == [Ident(func), LParen] + (inner + [RParen]);
    hide Bare;
    if arg != Star {
      ParsePrint(arg, 0, close);
      FirstToken(arg, 0);
    }
    CallStep(func, arg, inner + close, rest);
    AggregateStep(func, [LParen] + (inner + close));
    PrintCall(func, inner, rest);
  }

  /** At a collecting level, reading the tree leaves the loop with it as the left operand. */
  lemma {:induction false} ParseSpine(e: Expr, l: Level, rest: seq<Token>)
    requires Printable(e) && Collecting(l) && Ended(rest) && Stops(l + 1, rest[0])
    ensures Ended(Print(e, l) + rest)
    ensures Parse(l, Print(e, l) + rest) == Tail(l, e, rest)
    decreases e, Distance(e, l), 1
  {
    hide Tail, Upper, Continues, Parse, Print, Bare, OpLevel;
    EndedAppend(Print(e, l), rest);
    if LevelOf(e) == l {
      SpineOperands(e, l);
      OperatorStops(e.op);
      var mid := Print(e.right, l + 1) + rest;
      var more := [OpToken(e.op)] + mid;
      ParsePrint(e.right, l + 1, rest);
      ParseSpine(e.left, l, more);
      PrintOperands(e.op, e.left, e.right, rest);
      OperandsStep(l, e.op, e.left, e.right, Print(e, l) + rest, mid, rest);
    } else {
      SamePrint(e, l);
      ParsePrint(e, l + 1, rest);
      SpineStep(l, e, Print(e, l) + rest, rest);
    }
  }

  /** What belongs to a collecting level is an operator and its operands. */
  lemma SpineOperands(e: Expr, l: Level)
    requires Printable(e) && Collecting(l) && LevelOf(e) == l
    ensures e.BinaryOp? && OpLevel(e.op) == l && Printable(e.left) && Printable(e.right)
  {
  }

  lemma SamePrint(e: Expr, l: Level)
    requires Printable(e) && l < 8 && LevelOf(e) != l
    ensures Print(e, l) == Print(e, l + 1)
  {
  }

  lemma SpineStep(l: Level, e: Expr, ts: seq<Token>, rest: seq<Token>)
    requires Collecting(l) && Ended(ts) && Ended(rest) && Parse(l + 1, ts) == Ok(Parsed(e, rest))
    ensures Parse(l, ts) == Tail(l, e, rest)
  {
    hide Tail;
  }

  /** The whole expression, followed by whatever cannot go on with it. */
  lemma RoundTrip(e: Expr, rest: seq<Token>)
    requires Printable(e) && Ended(rest) && Stops(0, rest[0])
    ensures Ended(Print(e, 0) + rest)
    ensures Parse(0, Print(e, 0) + rest) == Ok(Parsed(e, rest))
  {
    ParsePrint(e, 0, rest);
  }

  // ----- how operators bind -----

  function Num(n: int): Expr {
    Constant(IntLit(n))
  }

  /** Each level of operators, from the loosest to the tightest. */
  const Ladder: seq<seq<(string, Token)>> :=
    [[("OR", OrTok)], [("AND", AndTok)],
     [("=", Op("=")), ("!=", Op("!=")), ("<>", Op("<>")), ("<", Op("<")), (">", Op(">")), ("<=", Op("<=")),
      (">=", Op(">="))],
     [("+", Op("+")), ("-", Op("-"))], [("*", StarTok), ("/", Op("/"))]]

  lemma LadderLevels(i: nat, a: nat)
    requires i < |Ladder| && a < |Ladder[i]|
    ensures OpLevel(Ladder[i][a].0) == [0, 1, 4, 5, 6][i] && OpToken(Ladder[i][a].0) == Ladder[i][a].1
  {
  }

  function RightTree(op: string, op': string, x: int, y: int, z: int): (e: Expr)
    requires OpLevel(op) < 9 && OpLevel(op') < 9
    ensures Printable(e)
  {
    var inner := BinaryOp(op', Num(y), Num(z));
    assert Printable(Num(x)) && Printable(Num(y)) && Printable(Num(z));
    assert Printable(inner);
    BinaryOp(op, Num(x), inner)
  }

  function LeftTree(op: string, op': string, x: int, y: int, z: int): (e: Expr)
    requires OpLevel(op) < 9 && OpLevel(op') < 9
    ensures Printable(e)
  {
    var inner := BinaryOp(op, Num(x), Num(y));
    assert Printable(Num(x)) && Printable(Num(y)) && Printable(Num(z));
    assert Printable(inner);
    BinaryOp(op', inner, Num(z))
  }

  lemma {:induction false} NumTokens(n: int, l: Level)
    ensures Print(Num(n), l) == [Lit(IntLit(n))]
  {
  }

  lemma PairTokens(op: string, l: Level, x: int, y: int)
    requires l <= OpLevel(op) <= 6
    ensures Print(BinaryOp(op, Num(x), Num(y)), l) == [Lit(IntLit(x)), OpToken(op), Lit(IntLit(y))]
  {
    hide OpLevel, OpToken;
    NumTokens(x, OpLevel(op));
    NumTokens(y, OpLevel(op) + 1);
  }

  lemma RightTokens(op: string, op': string, x: int, y: int, z: int)
    requires OpLevel(op) < OpLevel(op') <= 6
    ensures Print(RightTree(op, op', x, y, z), 0)
            == [Lit(IntLit(x)), OpToken(op), Lit(IntLit(y)), OpToken(op'), Lit(IntLit(z))]
  {
    hide OpLevel, OpToken;
    NumTokens(x, OpLevel(op));
    PairTokens(op', OpLevel(op) + 1, y, z);
  }

  lemma LeftTokens(op: string, op': string, x: int, y: int, z: int)
    requires OpLevel(op') <= OpLevel(op) <= 6
    ensures Print(LeftTree(op, op', x, y, z), 0)
            == [Lit(IntLit(x)), OpToken(op), Lit(IntLit(y)), OpToken(op'), Lit(IntLit(z))]
  {
    hide OpLevel, OpToken;
    PairTokens(op, OpLevel(op'), x, y);
    NumTokens(z, OpLevel(op') + 1);
  }

  /** x op y op' z without brackets: the operator of the higher level binds its operands first, and of two on one level
      the left one does. */
  lemma Precedence(i: nat, a: nat, j: nat, b: nat, x: int, y: int, z: int)
    requires i < |Ladder| && a < |Ladder[i]| && j < |Ladder| && b < |Ladder[j]|
    ensures var op, t, op', t' := Ladder[i][a].0, Ladder[i][a].1, Ladder[j][b].0, Ladder[j][b].1;
            Parse(0, [Lit(IntLit(x)), t, Lit(IntLit(y)), t', Lit(IntLit(z)), Eof])
            == Ok(Parsed(if i < j then BinaryOp(op, Num(x), BinaryOp(op', Num(y), Num(z)))
                         else BinaryOp(op', BinaryOp(op, Num(x), Num(y)), Num(z)), [Eof]))
  {
    var op, t, op', t' := Ladder[i][a].0, Ladder[i][a].1, Ladder[j][b].0, Ladder[j][b].1;
    LadderLevels(i, a);
    LadderLevels(j, b);
    hide OpLevel, OpToken, Parse, Print;
    if i < j {
      RightTokens(op, op', x, y, z);
    } else {
      LeftTokens(op, op', x, y, z);
    }
    var e := if i < j then RightTree(op, op', x, y, z) else LeftTree(op, op', x, y, z);
    RoundTrip(e, [Eof]);
    assert Print(e, 0) + [Eof] == [Lit(IntLit(x)), t, Lit(IntLit(y)), t', Lit(IntLit(z)), Eof];
  }

  /** NOT takes a whole comparison, */
  lemma NotBinds(x: int, y: int)
    ensures Parse(0, [NotTok, Lit(IntLit(x)), Op("="), Lit(IntLit(y)), Eof])
            == Ok(Parsed(Not(BinaryOp("=", Num(x), Num(y))), [Eof]))
  {
    hide Parse;
    var e := Not(BinaryOp("=", Num(x), Num(y)));
    PairTokens("=", 2, x, y);
    RoundTrip(e, [Eof]);
    assert Print(e, 0) + [Eof] == [NotTok, Lit(IntLit(x)), Op("="), Lit(IntLit(y)), Eof];
  }

  /** so does IS NULL, */
  lemma IsNullBinds(x: int, y: int)
    ensures Parse(0, [Lit(IntLit(x)), Op("="), Lit(IntLit(y)), Ident("IS"), NullTok, Eof])
            == Ok(Parsed(IsNull(BinaryOp("=", Num(x), Num(y)), false), [Eof]))
  {
    hide Parse;
    var e := IsNull(BinaryOp("=", Num(x), Num(y)), false);
    PairTokens("=", 4, x, y);
    RoundTrip(e, [Eof]);
    assert Print(e, 0) + [Eof] == [Lit(IntLit(x)), Op("="), Lit(IntLit(y)), Ident("IS"), NullTok, Eof];
  }

  /** and a minus sign takes a single operand. */
  lemma MinusBinds(x: int, y: int)
    ensures Parse(0, [Op("-"), Lit(IntLit(x)), StarTok, Lit(IntLit(y)), Eof])
            == Ok(Parsed(BinaryOp("*", Minus(Num(x)), Num(y)), [Eof]))
  {
    hide Parse;
    var minus := Minus(Num(x));
    NumTokens(x, 8);
    NumTokens(y, 7);
    RoundTrip(BinaryOp("*", minus, Num(y)), [Eof]);
    assert Print(minus, 6) == [Op("-"), Lit(IntLit(x))];
    assert Print(BinaryOp("*", minus, Num(y)), 0) + [Eof] == [Op("-"), Lit(IntLit(x)), StarTok, Lit(IntLit(y)), Eof];
  }

  // ----- which trees can be read at all -----

  lemma {:induction false} ParsedPrintable(l: Level, ts: seq<Token>)
    requires Ended(ts)
    ensures Parse(l, ts).Ok? ==> Printable(Parse(l, ts).value.expr)
    decreases |ts|, 9 - l
  {
    if l == 8 {
      PrimaryPrintable(ts);
    } else if (l == 2 && ts[0] == NotTok) || (l == 7 && ts[0] == Op("-")) {
      ParsedPrintable(if l == 2 then 2 else 8, Drop(ts));
    } else {
      ParsedPrintable(l + 1, ts);
      var r := Parse(l + 1, ts);
      if r.Ok? && l != 3 {
        TailPrintable(l, r.value.expr, r.value.rest);
      }
    }
  }

  lemma {:induction false} TailPrintable(l: Level, left: Expr, ts: seq<Token>)
    requires Ended(ts) && Printable(left)
    ensures Tail(l, left, ts).Ok? ==> Printable(Tail(l, left, ts).value.expr)
    decreases |ts|, 0
  {
    var op := Continues(l, ts[0]);
    if op.Some? {
      ParsedPrintable(l + 1, Drop(ts));
      var r := Parse(l + 1, Drop(ts));
      if r.Ok? {
        TailPrintable(l, BinaryOp(op.value, left, r.value.expr), r.value.rest);
      }
    }
  }

  lemma {:induction false} PrimaryPrintable(ts: seq<Token>)
    requires Ended(ts)
    ensures ParsePrimary(ts).Ok? ==> Printable(ParsePrimary(ts).value.expr)
    decreases |ts|, 0
  {
    hide Upper;
    if ts[0] == LParen {
      ParsedPrintable(0, Drop(ts));
    } else if ts[0].Ident? && IsAggregateName(ts[0].name) {
      var call := Drop(ts);
      if call[0] == LParen && call[1] != StarTok {
        ParsedPrintable(0, Drop(call));
      }
    }
  }

  ghost predicate Yields(ts: seq<Token>, e: Expr) {
    Ended(ts) && Parse(0, ts).Ok? && Parse(0, ts).value.expr == e
  }

  /** The trees some token list yields are exactly the printable ones. */
  lemma YieldedIffPrintable(e: Expr)
    ensures (exists ts :: Yields(ts, e)) <==> Printable(e)
  {
    if Printable(e) {
      var rest := [Eof];
      RoundTrip(e, rest);
      assert Yields(Print(e, 0) + rest, e);
    }
    forall ts | Yields(ts, e)
      ensures Printable(e)
    {
      ParsedPrintable(0, ts);
    }
  }

  /** Writing loses nothing: different trees are written differently. */
  lemma PrintInjective(a: Expr, b: Expr)
    requires Printable(a) && Printable(b) && Print(a, 0) == Print(b, 0)
    ensures a == b
  {
    RoundTrip(a, [Eof]);
    RoundTrip(b, [Eof]);
  }
}

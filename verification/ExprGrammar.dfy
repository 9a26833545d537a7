/** Expression trees, tokens, and the expression grammar as a ladder of nine levels:
    0 OR, 1 AND, 2 NOT, 3 IS NULL, 4 comparison, 5 additive, 6 multiplicative, 7 minus, 8 primary. */
module ExprGrammar {
  import opened Wrappers

  /** Literal values; a floating point literal is kept as its written form. */
  datatype Literal = IntLit(n: int) | FloatLit(text: string) | StrLit(s: string) | BoolLit(b: bool)

  datatype Expr =
    | Constant(value: Literal)
    | NullLiteral
    | ColumnRef(name: string, table: Option<string>)
    | BinaryOp(op: string, left: Expr, right: Expr)
    | Not(operand: Expr)
    | Minus(operand: Expr)
    | IsNull(operand: Expr, negated: bool)
    | Aggregate(func: string, arg: Expr)
    | Star

  /** The tokens expressions are made of; Other stands for every token kind they never contain. */
  datatype Token =
    | Lit(value: Literal) | Ident(name: string) | Op(name: string)
    | StarTok | LParen | RParen | Dot | AndTok | OrTok | NotTok | NullTok
    | Other(kind: string) | Eof

  datatype ParseError = Expected(what: string, found: Token) | Unexpected(found: Token)

  datatype Parsed = Parsed(expr: Expr, rest: seq<Token>)

  type Outcome = Result<Parsed, ParseError>

  /** 0 OR, 1 AND, 2 NOT, 3 IS NULL, 4 comparison, 5 additive, 6 multiplicative, 7 minus, 8 primary. */
  type Level = l: nat | l <= 8

  // ----- words -----

  function UpperChar(c: char): char {
    if 'a' <= c <= 'z' then c - 'a' + 'A' else c
  }

  /** Letters of the ASCII alphabet in upper case. */
  function Upper(s: string): string {
    if s == "" then "" else [UpperChar(s[0])] + Upper(s[1..])
  }

  predicate IsAggregateName(name: string) {
    Upper(name) in {"COUNT", "SUM", "AVG"}
  }

  predicate IsIs(t: Token) {
    t.Ident? && Upper(t.name) == "IS"
  }

  /** The name is the word, each letter in either case. */
  predicate Spells(name: string, lower: string, upper: string) {
    |name| == |lower| == |upper| && forall i :: 0 <= i < |name| ==> name[i] == lower[i] || name[i] == upper[i]
  }

  lemma {:induction false} UpperAt(s: string)
    ensures |Upper(s)| == |s| && forall i :: 0 <= i < |s| ==> Upper(s)[i] == UpperChar(s[i])
  {
    if s != "" {
      UpperAt(s[1..]);
    }
  }

  lemma UpperSpells(name: string, lower: string, upper: string)
    requires |lower| == |upper|
    requires forall i :: 0 <= i < |lower| ==> 'a' <= lower[i] <= 'z' && upper[i] == UpperChar(lower[i])
    ensures Spells(name, lower, upper) <==> Upper(name) == upper
  {
    UpperAt(name);
    if Upper(name) == upper {
      forall i | 0 <= i < |name|
        ensures name[i] == lower[i] || name[i] == upper[i]
      {
        assert Upper(name)[i] == upper[i];
      }
    }
    hide Upper;
  }

  /** Keywords are recognised in any spelling, and nothing else is one. */
  lemma SpellingIgnored(name: string)
    ensures IsIs(Ident(name)) <==> Spells(name, "is", "IS")
    ensures Spells(name, "count", "COUNT") <==> Upper(name) == "COUNT"
    ensures Spells(name, "sum", "SUM") <==> Upper(name) == "SUM"
    ensures Spells(name, "avg", "AVG") <==> Upper(name) == "AVG"
  {
    hide Upper, Spells;
    UpperSpells(name, "is", "IS");
    UpperSpells(name, "count", "COUNT");
    UpperSpells(name, "sum", "SUM");
    UpperSpells(name, "avg", "AVG");
  }

  // ----- the ladder -----

  predicate IsComparison(op: string) {
    op in {"=", "!=", "<>", "<", ">", "<=", ">="}
  }

  /** Levels at which a loop collects operands from left to right. */
  predicate Collecting(l: nat) {
    l in {0, 1, 4, 5, 6}
  }

  /** The operator a token stands for in the loop of a level, if it continues that loop. */
  function Continues(l: nat, t: Token): Option<string> {
    if l == 0 then (if t == OrTok then Some("OR") else None)
    else if l == 1 then (if t == AndTok then Some("AND") else None)
    else if l == 4 then (if t.Op? && IsComparison(t.name) then Some(t.name) else None)
    else if l == 5 then (if t.Op? && t.name in {"+", "-"} then Some(t.name) else None)
    else if l == 6 then
      if t.Op? && t.name == "/" then Some("/") else if t == StarTok then Some("*") else None
    else None
  }

  /** A token list the lexer produces: its last token is the end mark. */
  predicate Ended(ts: seq<Token>) {
    |ts| > 0 && ts[|ts| - 1] == Eof
  }

  /** A parse that succeeds consumes at least one token, and never the end mark. */
  predicate Consumes(r: Outcome, ts: seq<Token>) {
    r.Ok? ==> Ended(r.value.rest) && |r.value.rest| < |ts|
  }

  /** The tokens after the first one, which is not the end mark. */
  function Drop(ts: seq<Token>): (rest: seq<Token>)
    requires Ended(ts) && ts[0] != Eof
    ensures Ended(rest) && |rest| == |ts| - 1
  {
    ts[1..]
  }

  /** Consumes one expected token after an expression. */
  function Expect(t: Token, what: string, e: Expr, ts: seq<Token>): (r: Outcome)
    requires Ended(ts) && t != Eof
    ensures Consumes(r, ts)
  {
    if ts[0] == t then Ok(Parsed(e, Drop(ts))) else Err(Expected(what, ts[0]))
  }

  /** Parses at one level of the ladder. */
  function Parse(l: Level, ts: seq<Token>): (r: Outcome)
    requires Ended(ts)
    ensures Consumes(r, ts)
    decreases |ts|, 9 - l
  {
    if l == 8 then ParsePrimary(ts)
    else if l == 2 && ts[0] == NotTok then
      var r := Parse(2, Drop(ts));
      if r.Err? then r else Ok(Parsed(Not(r.value.expr), r.value.rest))
    else if l == 7 && ts[0] == Op("-") then
      var r := Parse(8, Drop(ts));
      if r.Err? then r else Ok(Parsed(Minus(r.value.expr), r.value.rest))
    else
      var r := Parse(l + 1, ts);
      if r.Err? then r
      else if l == 3 then IsTail(r.value.expr, r.value.rest)
      else Tail(l, r.value.expr, r.value.rest)
  }

  /** The loop of a collecting level: operands are folded to the left. */
  function Tail(l: Level, left: Expr, ts: seq<Token>): (r: Outcome)
    requires Ended(ts)
    ensures r.Ok? ==> Ended(r.value.rest) && |r.value.rest| <= |ts|
    decreases |ts|, 0
  {
    var op := Continues(l, ts[0]);
    if op.None? then Ok(Parsed(left, ts))
    else
      var r := Parse(l + 1, Drop(ts));
      if r.Err? then r else Tail(l, BinaryOp(op.value, left, r.value.expr), r.value.rest)
  }

  /** An optional IS NULL or IS NOT NULL. */
  function IsTail(left: Expr, ts: seq<Token>): (r: Outcome)
    requires Ended(ts)
    ensures r.Ok? ==> Ended(r.value.rest) && |r.value.rest| <= |ts|
  {
    if !IsIs(ts[0]) then Ok(Parsed(left, ts))
    else
      var rest := Drop(ts);
      if rest[0] == NotTok then Expect(NullTok, "NULL", IsNull(left, true), Drop(rest))
      else Expect(NullTok, "NULL", IsNull(left, false), rest)
  }

  function ParsePrimary(ts: seq<Token>): (r: Outcome)
    requires Ended(ts)
    ensures Consumes(r, ts)
    decreases |ts|, 0
  {
    match ts[0]
    case Lit(v) => Ok(Parsed(Constant(v), Drop(ts)))
    case NullTok => Ok(Parsed(NullLiteral, Drop(ts)))
    case LParen =>
      var r := Parse(0, Drop(ts));
      if r.Err? then r else Expect(RParen, "RPAREN", r.value.expr, r.value.rest)
    case Ident(name) =>
      if IsAggregateName(name) then ParseAggregate(Upper(name), Drop(ts))
      else ParseColumn(name, Drop(ts))
    case _ => Err(Unexpected(ts[0]))
  }

  function ParseColumn(name: string, ts: seq<Token>): (r: Outcome)
    requires Ended(ts)
    ensures r.Ok? ==> Ended(r.value.rest) && |r.value.rest| <= |ts|
  {
    if ts[0] != Dot then Ok(Parsed(ColumnRef(name, None), ts))
    else
      var rest := Drop(ts);
      if rest[0].Ident? then Ok(Parsed(ColumnRef(rest[0].name, Some(name)), Drop(rest)))
      else Err(Expected("IDENT", rest[0]))
  }

  function ParseAggregate(func: string, ts: seq<Token>): (r: Outcome)
    requires Ended(ts)
    ensures Consumes(r, ts)
    decreases |ts|, 10
  {
    if ts[0] != LParen then Err(Expected("LPAREN", ts[0]))
    else
      var arg := Drop(ts);
      if arg[0] == StarTok then Expect(RParen, "RPAREN", Aggregate(func, Star), Drop(arg))
      else
        var r := Parse(0, arg);
        if r.Err? then r else Expect(RParen, "RPAREN", Aggregate(func, r.value.expr), r.value.rest)
  }

  /** A call of an aggregate, and IS, read the same in any spelling. */
  lemma SpelledAlike(name: string, ts: seq<Token>, left: Expr)
    requires Ended(ts)
    ensures Spells(name, "count", "COUNT") ==> ParsePrimary([Ident(name)] + ts) == ParsePrimary([Ident("COUNT")] + ts)
    ensures Spells(name, "sum", "SUM") ==> ParsePrimary([Ident(name)] + ts) == ParsePrimary([Ident("SUM")] + ts)
    ensures Spells(name, "avg", "AVG") ==> ParsePrimary([Ident(name)] + ts) == ParsePrimary([Ident("AVG")] + ts)
    ensures Spells(name, "is", "IS") ==> IsTail(left, [Ident(name)] + ts) == IsTail(left, [Ident("IS")] + ts)
  {
    hide Upper, Spells, ParsePrimary, IsTail;
    SpellingIgnored(name);
    Capitals();
    if Upper(name) in {"COUNT", "SUM", "AVG"} {
      CallAlike(name, Upper(name), ts);
    }
    if Spells(name, "is", "IS") {
      IsAlike(name, "IS", ts, left);
    }
  }

  lemma Capitals()
    ensures Upper("COUNT") == "COUNT" && Upper("SUM") == "SUM" && Upper("AVG") == "AVG" && IsIs(Ident("IS"))
  {
    UpperAt("COUNT");
    UpperAt("SUM");
    UpperAt("AVG");
    UpperAt("IS");
    hide Upper;
  }

  lemma CallAlike(name: string, name': string, ts: seq<Token>)
    requires Ended(ts) && Upper(name) == Upper(name') && Upper(name) in {"COUNT", "SUM", "AVG"}
    ensures ParsePrimary([Ident(name)] + ts) == ParsePrimary([Ident(name')] + ts)
  {
    hide Upper, ParseAggregate, ParseColumn, Parse;
    assert Drop([Ident(name)] + ts) == ts == Drop([Ident(name')] + ts);
  }

  lemma IsAlike(name: string, name': string, ts: seq<Token>, left: Expr)
    requires Ended(ts) && IsIs(Ident(name)) && IsIs(Ident(name'))
    ensures IsTail(left, [Ident(name)] + ts) == IsTail(left, [Ident(name')] + ts)
  {
    hide Upper;
    assert Drop([Ident(name)] + ts) == ts == Drop([Ident(name')] + ts);
  }
}

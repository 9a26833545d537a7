/** The recursive descent over a token cursor: each method of the ladder moves the cursor exactly
    as far as the grammar says. */
module ExprParser {
  import opened Wrappers
  import opened ExprGrammar

  /** The method's result and the tokens it leaves are what the grammar says. */
  predicate Agrees(r: Result<Expr, ParseError>, rest: seq<Token>, spec: Outcome) {
    match r
    case Ok(e) => spec == Ok(Parsed(e, rest))
    case Err(error) => spec == Err(error)
  }

  class Parser {
    const tokens: seq<Token>
    var pos: nat

    predicate Valid()
      reads this
    {
      Ended(tokens) && pos < |tokens|
    }

    function Rest(): (ts: seq<Token>)
      requires Valid()
      reads this
      ensures Ended(ts)
    {
      tokens[pos..]
    }

    constructor (tokens: seq<Token>)
      requires Ended(tokens)
      ensures Valid() && this.tokens == tokens && Rest() == tokens
    {
      this.tokens, pos := tokens, 0;
    }

    function Peek(): (t: Token)
      requires Valid()
      reads this
      ensures t == Rest()[0]
    {
      tokens[pos]
    }

    /** The cursor stays on the last token, the end mark. */
    method Advance() returns (t: Token)
      requires Valid()
      modifies this`pos
      ensures Valid() && t == old(Peek())
      ensures Rest() == if t == Eof && old(pos) == |tokens| - 1 then old(Rest()) else old(Rest())[1..]
      ensures t != Eof ==> pos == old(pos) + 1 && Rest() == Drop(old(Rest()))
    {
      t := tokens[pos];
      if pos < |tokens| - 1 {
        pos := pos + 1;
      }
    }

    method Match(t: Token) returns (found: bool)
      requires Valid() && t != Eof
      modifies this`pos
      ensures Valid() && found == (old(Peek()) == t)
      ensures found ==> pos == old(pos) + 1 && Rest() == Drop(old(Rest()))
      ensures !found ==> pos == old(pos)
    {
      found := Peek() == t;
      if found {
        var _ := Advance();
      }
    }

    /** Closes a construct: the token must come next. */
    method Finish(t: Token, what: string, e: Expr) returns (r: Result<Expr, ParseError>)
      requires Valid() && t != Eof
      modifies this`pos
      ensures Valid() && pos >= old(pos) && Agrees(r, Rest(), Expect(t, what, e, old(Rest())))
    {
      var found := Match(t);
      r := if found then Ok(e) else Err(Expected(what, Peek()));
    }

    /** OR, the lowest level. */
    method ParseExpression() returns (r: Result<Expr, ParseError>)
      requires Valid()
      modifies this`pos
      ensures Valid() && pos >= old(pos) && Agrees(r, Rest(), Parse(0, old(Rest())))
      decreases |tokens| - pos, 9
    {
      var first := ParseAnd();
      if first.Err? {
        return first;
      }
      var left := first.value;
      while true
        invariant Valid() && pos >= old(pos)
        invariant Parse(0, old(Rest())) == Tail(0, left, Rest())
        decreases |tokens| - pos
      {
        var more := Match(OrTok);
        if !more {
          break;
        }
        var right := ParseAnd();
        if right.Err? {
          return right;
        }
        left := BinaryOp("OR", left, right.value);
      }
      return Ok(left);
    }

    /** AND. */
    method ParseAnd() returns (r: Result<Expr, ParseError>)
      requires Valid()
      modifies this`pos
      ensures Valid() && pos >= old(pos) && Agrees(r, Rest(), Parse(1, old(Rest())))
      decreases |tokens| - pos, 8
    {
      var first := ParseNot();
      if first.Err? {
        return first;
      }
      var left := first.value;
      while true
        invariant Valid() && pos >= old(pos)
        invariant Parse(1, old(Rest())) == Tail(1, left, Rest())
        decreases |tokens| - pos
      {
        var more := Match(AndTok);
        if !more {
          break;
        }
        var right := ParseNot();
        if right.Err? {
          return right;
        }
        left := BinaryOp("AND", left, right.value);
      }
      return Ok(left);
    }

    /** NOT, which takes another NOT as its operand. */
    method ParseNot() returns (r: Result<Expr, ParseError>)
      requires Valid()
      modifies this`pos
      ensures Valid() && pos >= old(pos) && Agrees(r, Rest(), Parse(2, old(Rest())))
      decreases |tokens| - pos, 7
    {
      var negated := Match(NotTok);
      if negated {
        var operand := ParseNot();
        return if operand.Err? then operand else Ok(Not(operand.value));
      }
      r := ParseIsNull();
    }

    /** IS NULL and IS NOT NULL, at most once; IS is an ordinary identifier. */
    method ParseIsNull() returns (r: Result<Expr, ParseError>)
      requires Valid()
      modifies this`pos
      ensures Valid() && pos >= old(pos) && Agrees(r, Rest(), Parse(3, old(Rest())))
      decreases |tokens| - pos, 6
    {
      r := ParseComparison();
      if r.Err? || !IsIs(Peek()) {
        return;
      }
      var _ := Advance();
      var negated := Match(NotTok);
      r := Finish(NullTok, "NULL", IsNull(r.value, negated));
    }

    /** Comparisons, chained to the left. */
    method ParseComparison() returns (r: Result<Expr, ParseError>)
      requires Valid()
      modifies this`pos
      ensures Valid() && pos >= old(pos) && Agrees(r, Rest(), Parse(4, old(Rest())))
      decreases |tokens| - pos, 5
    {
      var first := ParseAdditive();
      if first.Err? {
        return first;
      }
      var left := first.value;
      while true
        invariant Valid() && pos >= old(pos)
        invariant Parse(4, old(Rest())) == Tail(4, left, Rest())
        decreases |tokens| - pos
      {
        if !(Peek().Op? && IsComparison(Peek().name)) {
          break;
        }
        var op := Advance();
        var right := ParseAdditive();
        if right.Err? {
          return right;
        }
        left := BinaryOp(op.name, left, right.value);
      }
      return Ok(left);
    }

    /** Sums. */
    method ParseAdditive() returns (r: Result<Expr, ParseError>)
      requires Valid()
      modifies this`pos
      ensures Valid() && pos >= old(pos) && Agrees(r, Rest(), Parse(5, old(Rest())))
      decreases |tokens| - pos, 4
    {
      var first := ParseMultiplicative();
      if first.Err? {
        return first;
      }
      var left := first.value;
      while true
        invariant Valid() && pos >= old(pos)
        invariant Parse(5, old(Rest())) == Tail(5, left, Rest())
        decreases |tokens| - pos
      {
        if !(Peek().Op? && Peek().name in {"+", "-"}) {
          break;
        }
        var op := Advance();
        var right := ParseMultiplicative();
        if right.Err? {
          return right;
        }
        left := BinaryOp(op.name, left, right.value);
      }
      return Ok(left);
    }

    /** Products; the star token is the multiplication sign. */
    method ParseMultiplicative() returns (r: Result<Expr, ParseError>)
      requires Valid()
      modifies this`pos
      ensures Valid() && pos >= old(pos) && Agrees(r, Rest(), Parse(6, old(Rest())))
      decreases |tokens| - pos, 3
    {
      hide Upper, IsComparison;
      var first := ParseUnary();
      if first.Err? {
        return first;
      }
      var left := first.value;
      while true
        invariant Valid() && pos >= old(pos)
        invariant Parse(6, old(Rest())) == Tail(6, left, Rest())
        decreases |tokens| - pos
      {
        var op;
        if Peek().Op? && Peek().name == "/" {
          op := "/";
        } else if Peek() == StarTok {
          op := "*";
        } else {
          break;
        }
        assert Continues(6, Peek()) == Some(op);
        hide Continues;
        var _ := Advance();
        var right := ParseUnary();
        if right.Err? {
          return right;
        }
        left := BinaryOp(op, left, right.value);
      }
      return Ok(left);
    }

    /** A minus takes a primary, not another minus. */
    method ParseUnary() returns (r: Result<Expr, ParseError>)
      requires Valid()
      modifies this`pos
      ensures Valid() && pos >= old(pos) && Agrees(r, Rest(), Parse(7, old(Rest())))
      decreases |tokens| - pos, 2
    {
      if Peek() == Op("-") {
        var _ := Advance();
        var operand := ParsePrimary();
        return if operand.Err? then operand else Ok(Minus(operand.value));
      }
      r := ParsePrimary();
    }

    /** Literals, aggregates, brackets and column names. */
    method ParsePrimary() returns (r: Result<Expr, ParseError>)
      requires Valid()
      modifies this`pos
      ensures Valid() && pos >= old(pos) && Agrees(r, Rest(), Parse(8, old(Rest())))
      decreases |tokens| - pos, 1
    {
      var t := Peek();
      match t
      case Lit(v) =>
        var _ := Advance();
        r := Ok(Constant(v));
      case NullTok =>
        var _ := Advance();
        r := Ok(NullLiteral);
      case LParen =>
        var _ := Advance();
        r := ParseExpression();
        if r.Ok? {
          r := Finish(RParen, "RPAREN", r.value);
        }
      case Ident(name) =>
        if IsAggregateName(name) {
          r := ParseAggregateCall();
        } else {
          var _ := Advance();
          r := ParseColumnName(name);
        }
      case _ =>
        r := Err(Unexpected(t));
    }

    /** The rest of a column name: a dot makes the name read the table's. */
    method ParseColumnName(name: string) returns (r: Result<Expr, ParseError>)
      requires Valid()
      modifies this`pos
      ensures Valid() && pos >= old(pos) && Agrees(r, Rest(), ParseColumn(name, old(Rest())))
    {
      if Peek() != Dot {
        return Ok(ColumnRef(name, None));
      }
      var _ := Advance();
      if !Peek().Ident? {
        return Err(Expected("IDENT", Peek()));
      }
      var column := Advance();
      return Ok(ColumnRef(column.name, Some(name)));
    }

    /** An aggregate call from its name on. */
    method ParseAggregateCall() returns (r: Result<Expr, ParseError>)
      requires Valid() && Peek().Ident?
      modifies this`pos
      ensures Valid() && pos >= old(pos)
      ensures Agrees(r, Rest(), ParseAggregate(Upper(old(Peek()).name), Drop(old(Rest()))))
      decreases |tokens| - pos, 0
    {
      var name := Advance();
      var func := Upper(name.name);
      var open := Match(LParen);
      if !open {
        return Err(Expected("LPAREN", Peek()));
      }
      if Peek() == StarTok {
        var _ := Advance();
        r := Finish(RParen, "RPAREN", Aggregate(func, Star));
      } else {
        r := ParseExpression();
        if r.Ok? {
          r := Finish(RParen, "RPAREN", Aggregate(func, r.value));
        }
      }
    }
  }
}

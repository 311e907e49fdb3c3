/** The SQL text the Db wrapper builds: the per-type placeholder tokens and
    escapes, the where clause of an array predicate, and the DELETE, INSERT,
    REPLACE, SELECT and UPDATE statements with the parameters that query()
    substitutes into them with vsprintf. mysqli::escape_string is a parameter. */
module Db {
  import opened Php
  import opened Assoc
  import Relations

  // ---------------------------------------------------------------------------
  // Tokens, filterToken and escape

  /** formatToken($value, $comparator): a %d placeholder for booleans and
      integers, a quoted %s for strings and objects, NULL for null, and nothing
      for arrays and resources. */
  function FormatToken(v: Value, comparator: bool): (t: Option<string>)
  {
    match v
    case Bool(_) => Some(if comparator then "= %d" else "%d")
    case Int(_) => Some(if comparator then "= %d" else "%d")
    case Str(_) => Some(if comparator then "= \"%s\"" else "\"%s\"")
    case Obj(_) => Some(if comparator then "= \"%s\"" else "\"%s\"")
    case Null => Some(if comparator then "IS NULL" else "NULL")
    case Arr(_) => None
    case Resource(_) => None
  }

  /** The token as string concatenation and implode see it: null is "". */
  function Token(v: Value, comparator: bool): string
  {
    OrEmpty(FormatToken(v, comparator))
  }

  /** filterToken($value): the values query() is given as parameters. */
  predicate FilterToken(v: Value)
  {
    !v.Arr? && !v.Resource?
  }

  /** filterToken as its own documentation describes it: exactly the values
      whose token is a %d or %s placeholder. */
  predicate FilterTokenIntended(v: Value)
  {
    !v.Arr? && !v.Resource? && !v.Null?
  }

  /** The intended filter holds exactly when the token takes one argument. */
  lemma FilterTokenIntendedIsPlaceholder(v: Value, comparator: bool)
    ensures FilterTokenIntended(v) <==> Conversions(Token(v, comparator)) == 1
    ensures !FilterTokenIntended(v) ==> Conversions(Token(v, comparator)) == 0
  {
    TokenFmt(v, comparator, s => s);
  }

  /** As written, filterToken also passes null, whose token NULL / IS NULL
      takes no argument. */
  lemma FilterTokenPassesNull(comparator: bool)
    ensures FilterToken(Null) && Conversions(Token(Null, comparator)) == 0
  {
  }

  /** escape($value): booleans as 1 or 0, integers as decimal text, an object
      as the text of its id, a string through mysqli::escape_string (`esc`),
      and null for arrays, resources and null. */
  function Escape(v: Value, esc: string -> string): (r: Option<string>)
    ensures r.None? <==> v.Arr? || v.Resource? || v.Null?
  {
    match v
    case Bool(b) => Some(if b then "1" else "0")
    case Int(i) => Some(IntToString(i))
    case Obj(id) => Some(Relations.IdText(id))
    case Str(s) => Some(esc(s))
    case _ => None
  }

  function EscapeAll(vs: seq<Value>, esc: string -> string): (r: seq<Option<string>>)
    ensures |r| == |vs| && forall i :: 0 <= i < |vs| ==> r[i] == Escape(vs[i], esc)
  {
    if |vs| == 0 then [] else [Escape(vs[0], esc)] + EscapeAll(vs[1..], esc)
  }

  /** What a value's token should print once its argument is substituted. */
  function Literal(v: Value, comparator: bool, esc: string -> string): string
  {
    var eq := if comparator then "= " else "";
    match v
    case Bool(b) => eq + (if b then "1" else "0")
    case Int(i) => eq + IntToString(i)
    case Str(s) => eq + "\"" + esc(s) + "\""
    case Obj(id) => eq + "\"" + Relations.IdText(id) + "\""
    case Null => if comparator then "IS NULL" else "NULL"
    case _ => ""
  }

  /** What a list of values should print as, one literal per value. */
  function Literals(row: seq<Value>, esc: string -> string): (r: seq<string>)
    ensures |r| == |row| && forall i :: 0 <= i < |row| ==> r[i] == Literal(row[i], false, esc)
  {
    seq(|row|, i requires 0 <= i < |row| => Literal(row[i], false, esc))
  }

  /** A value without a placeholder prints its token as it stands. */
  lemma TokenIsLiteral(v: Value, comparator: bool, esc: string -> string)
    requires !FilterTokenIntended(v)
    ensures Token(v, comparator) == Literal(v, comparator, esc)
  {
  }

  /** The arguments a token should receive: its escaped value if it has a
      placeholder, none otherwise. */
  function Arg(v: Value, esc: string -> string): seq<Option<string>>
  {
    if FilterTokenIntended(v) then [Escape(v, esc)] else []
  }

  /** A template that ends outside a conversion, consumes exactly the given
      arguments and prints the given text. */
  predicate Aligned(part: string, args: seq<Option<string>>, out: string)
  {
    (|part| == 0 || part[|part| - 1] != '%') &&
    |args| == Conversions(part) && Fmt(part, args) == Some(out)
  }

  /** A token given its own argument prints its literal. */
  lemma TokenFmt(v: Value, comparator: bool, esc: string -> string)
    ensures Aligned(Token(v, comparator), Arg(v, esc), Literal(v, comparator, esc))
  {
    match v
    case Bool(b) => BoolTokenFmt(b, comparator, esc);
    case Int(i) => IntTokenFmt(i, comparator, esc);
    case Str(s) => StrTokenFmt(s, comparator, esc);
    case Obj(id) => ObjTokenFmt(id, comparator, esc);
    case Null => FmtLiteral(if comparator then "IS NULL" else "NULL");
    case Arr(_) =>
    case Resource(_) =>
  }

  lemma BoolTokenFmt(b: bool, comparator: bool, esc: string -> string)
    ensures Aligned(Token(Bool(b), comparator), Arg(Bool(b), esc), Literal(Bool(b), comparator, esc))
  {
    var n := if b then 1 else 0;
    IntTokenFmt(n, comparator, esc);
    BoolAsInt(b, comparator, esc);
    AlignedEq(Token(Int(n), comparator), Arg(Int(n), esc), Literal(Int(n), comparator, esc),
              Token(Bool(b), comparator), Arg(Bool(b), esc), Literal(Bool(b), comparator, esc));
  }

  /** A boolean is written as the integer 1 or 0. */
  lemma BoolAsInt(b: bool, comparator: bool, esc: string -> string)
    ensures var n := if b then 1 else 0;
      Token(Bool(b), comparator) == Token(Int(n), comparator) && Arg(Bool(b), esc) == Arg(Int(n), esc) &&
      Literal(Bool(b), comparator, esc) == Literal(Int(n), comparator, esc)
  {
    assert IntToString(1) == "1" && IntToString(0) == "0";
  }

  /** Alignment is a statement about the three texts only. */
  lemma AlignedEq(part: string, args: seq<Option<string>>, out: string,
                  part': string, args': seq<Option<string>>, out': string)
    requires Aligned(part, args, out) && part' == part && args' == args && out' == out
    ensures Aligned(part', args', out')
  {
  }

  /** Alignment survives concatenation: each half takes its own arguments. */
  lemma AlignedAppend(a: string, x: seq<Option<string>>, oa: string, b: string, y: seq<Option<string>>, ob: string)
    requires Aligned(a, x, oa) && Aligned(b, y, ob)
    ensures Aligned(a + b, x + y, oa + ob)
  {
    FmtAppend(a, b, x, y);
    ConversionsAppend(a, b);
    if |b| > 0 {
      assert (a + b)[|a + b| - 1] == b[|b| - 1];
    } else {
      assert a + b == a && x + y == x && oa + ob == oa;
    }
  }

  /** Text without a percent sign takes no argument and prints as itself. */
  lemma AlignedLiteral(s: string)
    requires '%' !in s
    ensures Aligned(s, [], s)
  {
    FmtLiteral(s);
  }

  lemma IntTokenFmt(i: int, comparator: bool, esc: string -> string)
    ensures Aligned(Token(Int(i), comparator), Arg(Int(i), esc), Literal(Int(i), comparator, esc))
  {
    var eq := if comparator then "= " else "";
    ParseIntRoundTrip(i);
    DigitToken(eq, IntToString(i));
    IntShape(i, comparator, esc);
    AlignedEq(eq + "%d", [Some(IntToString(i))], eq + IntToString(i),
              Token(Int(i), comparator), Arg(Int(i), esc), Literal(Int(i), comparator, esc));
  }

  lemma IntShape(i: int, comparator: bool, esc: string -> string)
    ensures var eq := if comparator then "= " else "";
      Token(Int(i), comparator) == eq + "%d" && Arg(Int(i), esc) == [Some(IntToString(i))] &&
      Literal(Int(i), comparator, esc) == eq + IntToString(i)
  {
  }

  lemma StrTokenFmt(s: string, comparator: bool, esc: string -> string)
    ensures Aligned(Token(Str(s), comparator), Arg(Str(s), esc), Literal(Str(s), comparator, esc))
  {
    var eq := if comparator then "= " else "";
    QuotedToken(eq, esc(s));
    assert eq + "\"%s\"" == Token(Str(s), comparator);
  }

  lemma ObjTokenFmt(id: Option<int>, comparator: bool, esc: string -> string)
    ensures Aligned(Token(Obj(id), comparator), Arg(Obj(id), esc), Literal(Obj(id), comparator, esc))
  {
    var eq := if comparator then "= " else "";
    QuotedToken(eq, Relations.IdText(id));
    assert eq + "\"%s\"" == Token(Obj(id), comparator);
  }

  /** A "%d" token after a literal prefix prints the prefix and the digits. */
  lemma DigitToken(eq: string, t: string)
    requires '%' !in eq
    requires IntToString(ParseInt(t)) == t
    ensures Aligned(eq + "%d", [Some(t)], eq + t)
  {
    FmtDigit(Some(t), []);
    assert [Some(t)] + [] == [Some(t)];
    FmtLiteral(eq);
    FmtAppend(eq, "%d", [], [Some(t)]);
    assert [] + [Some(t)] == [Some(t)];
    ConversionsLiteralPrefix(eq, "%d");
    assert (eq + "%d")[|eq + "%d"| - 1] == 'd';
  }

  /** A quoted "%s" token after a literal prefix prints the prefix and the
      quoted text. */
  lemma QuotedToken(eq: string, text: string)
    requires '%' !in eq
    ensures Aligned(eq + "\"%s\"", [Some(text)], eq + "\"" + text + "\"")
  {
    var open := eq + "\"";
    assert '%' !in open;
    assert eq + "\"%s\"" == open + "%s\"";
    FmtLiteral("\"");
    assert "%s\""[2..] == "\"";
    assert Fmt("%s\"", [Some(text)]) == Some(text + "\"");
    FmtLiteral(open);
    FmtAppend(open, "%s\"", [], [Some(text)]);
    assert [] + [Some(text)] == [Some(text)];
    ConversionsLiteralPrefix(open, "%s\"");
    AppendAssoc(open, text, "\"");
    assert (eq + "\"%s\"")[|eq + "\"%s\""| - 1] == '"';
  }

  // ---------------------------------------------------------------------------
  // Placeholder alignment

  function Flatten<T>(xs: seq<seq<T>>): seq<T>
  {
    if |xs| == 0 then [] else xs[0] + Flatten(xs[1..])
  }

  /** Joined templates, each given exactly its own arguments in turn, are
      aligned to the join of their outputs. */
  lemma {:induction false} JoinFmt(sep: string, parts: seq<string>, args: seq<seq<Option<string>>>, outs: seq<string>)
    requires '%' !in sep
    requires |parts| == |args| == |outs|
    requires forall i :: 0 <= i < |parts| ==> Aligned(parts[i], args[i], outs[i])
    ensures Aligned(Join(sep, parts), Flatten(args), Join(sep, outs))
    decreases |parts|
  {
    if |parts| == 0 {
      AlignedLiteral("");
    } else if |parts| == 1 {
      assert Aligned(parts[0], args[0], outs[0]);
      assert Flatten(args[1..]) == [];
      assert Flatten(args) == args[0];
    } else {
      assert Aligned(parts[0], args[0], outs[0]);
      assert forall i :: 0 <= i < |parts| - 1 ==> parts[1..][i] == parts[i + 1] && args[1..][i] == args[i + 1] && outs[1..][i] == outs[i + 1];
      JoinFmt(sep, parts[1..], args[1..], outs[1..]);
      AlignedLiteral(sep);
      AlignedAppend(parts[0], args[0], outs[0], sep, [], sep);
      assert args[0] + [] == args[0];
      AlignedAppend(parts[0] + sep, args[0], outs[0] + sep, Join(sep, parts[1..]), Flatten(args[1..]), Join(sep, outs[1..]));
    }
  }

  /** Joining text without a percent sign, by a separator without one, gives
      text without one. */
  lemma {:induction false} JoinPlain(sep: string, parts: seq<string>)
    requires '%' !in sep && forall i :: 0 <= i < |parts| ==> '%' !in parts[i]
    ensures '%' !in Join(sep, parts)
    decreases |parts|
  {
    if |parts| > 1 {
      assert forall i :: 0 <= i < |parts| - 1 ==> parts[1..][i] == parts[i + 1];
      JoinPlain(sep, parts[1..]);
    }
  }

  // ---------------------------------------------------------------------------
  // The where clause of an array predicate

  /** One condition of an array predicate: "`key` " and the token with its
      comparator. */
  function Condition(k: string, v: Value): string
  {
    "`" + k + "` " + Token(v, true)
  }

  function Conditions(w: seq<(string, Value)>): (r: seq<string>)
    ensures |r| == |w| && forall i :: 0 <= i < |w| ==> r[i] == Condition(w[i].0, w[i].1)
  {
    if |w| == 0 then [] else [Condition(w[0].0, w[0].1)] + Conditions(w[1..])
  }

  /** array_values(array_filter($where, $filter)). */
  function Params(w: seq<(string, Value)>, keep: Value -> bool): (r: seq<Value>)
    ensures |r| <= |w|
  {
    if |w| == 0 then []
    else (if keep(w[0].1) then [w[0].1] else []) + Params(w[1..], keep)
  }

  /** The where clause of an array predicate: its conditions in the array's
      order, joined by " AND ". */
  method WhereText(w: seq<(string, Value)>) returns (text: string)
    ensures text == Join(" AND ", Conditions(w))
  {
    var temp: seq<string> := [];
    for i := 0 to |w|
      invariant temp == Conditions(w[..i])
    {
      ConditionsSnoc(w, i);
      temp := temp + [Condition(w[i].0, w[i].1)];
    }
    assert w[..|w|] == w;
    text := Join(" AND ", temp);
  }

  lemma ConditionsSnoc(w: seq<(string, Value)>, i: nat)
    requires i < |w|
    ensures Conditions(w[..i + 1]) == Conditions(w[..i]) + [Condition(w[i].0, w[i].1)]
  {
  }

  /** What a condition should read once its argument is substituted. */
  function Rendered(w: seq<(string, Value)>, esc: string -> string): (r: seq<string>)
    ensures |r| == |w| && forall i :: 0 <= i < |w| ==> r[i] == "`" + w[i].0 + "` " + Literal(w[i].1, true, esc)
  {
    if |w| == 0 then [] else ["`" + w[0].0 + "` " + Literal(w[0].1, true, esc)] + Rendered(w[1..], esc)
  }

  function Args(w: seq<(string, Value)>, esc: string -> string): (r: seq<seq<Option<string>>>)
    ensures |r| == |w| && forall i :: 0 <= i < |w| ==> r[i] == Arg(w[i].1, esc)
  {
    if |w| == 0 then [] else [Arg(w[0].1, esc)] + Args(w[1..], esc)
  }

  lemma {:induction false} ArgsAreIntendedParams(w: seq<(string, Value)>, esc: string -> string)
    ensures Flatten(Args(w, esc)) == EscapeAll(Params(w, FilterTokenIntended), esc)
    decreases |w|
  {
    if |w| > 0 {
      ArgsAreIntendedParams(w[1..], esc);
      assert Args(w, esc)[1..] == Args(w[1..], esc);
      var head := if FilterTokenIntended(w[0].1) then [w[0].1] else [];
      EscapeAllAppend(head, Params(w[1..], FilterTokenIntended), esc);
    }
  }

  lemma EscapeAllAppend(a: seq<Value>, b: seq<Value>, esc: string -> string)
    ensures EscapeAll(a + b, esc) == EscapeAll(a, esc) + EscapeAll(b, esc)
  {
  }

  lemma ConditionFmt(k: string, v: Value, esc: string -> string)
    requires '%' !in k
    ensures Aligned(Condition(k, v), Arg(v, esc), "`" + k + "` " + Literal(v, true, esc))
  {
    var prefix := "`" + k + "` ";
    FmtLiteral(prefix);
    TokenFmt(v, true, esc);
    FmtAppend(prefix, Token(v, true), [], Arg(v, esc));
    assert [] + Arg(v, esc) == Arg(v, esc);
    ConversionsLiteralPrefix(prefix, Token(v, true));
  }

  lemma {:induction false} ConversionsLiteralPrefix(p: string, t: string)
    requires '%' !in p
    ensures Conversions(p + t) == Conversions(t)
    decreases |p|
  {
    if |p| == 0 {
      assert p + t == t;
    } else {
      assert (p + t)[1..] == p[1..] + t;
      ConversionsLiteralPrefix(p[1..], t);
    }
  }

  /** With the intended filter, every placeholder of an array predicate gets the
      value of its own entry: the where clause formats to the conditions with
      their values filled in. Keys must not hold '%', which vsprintf would read
      as a conversion. */
  lemma WhereAligned(w: seq<(string, Value)>, esc: string -> string)
    requires forall i :: 0 <= i < |w| ==> '%' !in w[i].0
    ensures Aligned(Join(" AND ", Conditions(w)), EscapeAll(Params(w, FilterTokenIntended), esc), Join(" AND ", Rendered(w, esc)))
  {
    var parts, args, outs := Conditions(w), Args(w, esc), Rendered(w, esc);
    forall i | 0 <= i < |w|
      ensures Aligned(parts[i], args[i], outs[i])
    {
      ConditionFmt(w[i].0, w[i].1, esc);
      AlignedEq(Condition(w[i].0, w[i].1), Arg(w[i].1, esc), "`" + w[i].0 + "` " + Literal(w[i].1, true, esc),
                parts[i], args[i], outs[i]);
    }
    AndIsPlain();
    JoinFmt(" AND ", parts, args, outs);
    ArgsAreIntendedParams(w, esc);
  }

  /** The separator between conditions holds no conversion. */
  lemma AndIsPlain()
    ensures '%' !in " AND "
  {
    var and := " AND ";
    assert and == [' ', 'A', 'N', 'D', ' '];
  }

  /** As written, a null entry passes filterToken but has no placeholder, so the
      parameters shift: ['a' => null, 'b' => 5] renders as `b` = 0, the null
      having been consumed by b's %d. */
  lemma WhereNullShiftsParams(esc: string -> string)
    ensures var w := [("a", Null), ("b", Int(5))];
      Fmt(Join(" AND ", Conditions(w)), EscapeAll(Params(w, FilterToken), esc)) == Some("`a` IS NULL AND `b` = 0")
  {
    var w := [("a", Null), ("b", Int(5))];
    var head := "`a` IS NULL AND `b` = ";
    NullThenFive(w, esc);
    assert [None] + [Some("5")] == [None, Some("5")];
    NullThenFiveHead();
    DigitOfNothing(head, [Some("5")]);
    assert head + "0" == "`a` IS NULL AND `b` = 0";
  }

  lemma NullThenFiveHead()
    ensures '%' !in "`a` IS NULL AND `b` = "
  {
    var head := "`a` IS NULL AND `b` = ";
    assert head == "`a` IS NULL" + " AND " + "`b` = ";
    AndIsPlain();
  }

  lemma NullThenFive(w: seq<(string, Value)>, esc: string -> string)
    requires w == [("a", Null), ("b", Int(5))]
    ensures EscapeAll(Params(w, FilterToken), esc) == [None, Some("5")]
    ensures Join(" AND ", Conditions(w)) == "`a` IS NULL AND `b` = " + "%d"
  {
    NullThenFiveParams(w, esc);
    NullThenFiveText(w);
  }

  lemma NullThenFiveParams(w: seq<(string, Value)>, esc: string -> string)
    requires w == [("a", Null), ("b", Int(5))]
    ensures EscapeAll(Params(w, FilterToken), esc) == [None, Some("5")]
  {
    assert Params(w, FilterToken) == [Null, Int(5)];
    assert IntToString(5) == "5";
  }

  lemma NullThenFiveText(w: seq<(string, Value)>)
    requires w == [("a", Null), ("b", Int(5))]
    ensures Join(" AND ", Conditions(w)) == "`a` IS NULL AND `b` = " + "%d"
  {
    var c := Conditions(w);
    assert c[0] == "`" + "a" + "` " + "IS NULL" == "`a` IS NULL";
    assert c[1] == "`" + "b" + "` " + "= %d" == "`b` = %d";
    assert c == ["`a` IS NULL", "`b` = %d"];
    assert c[1..] == ["`b` = %d"];
  }

  /** vsprintf's %d given a null prints 0. */
  lemma DigitOfNothing(head: string, rest: seq<Option<string>>)
    requires '%' !in head
    ensures Fmt(head + "%d", [None] + rest) == Some(head + "0")
  {
    FmtDigit(None, rest);
    NullDigit();
    FmtLiteral(head);
    FmtAppend(head, "%d", [], [None] + rest);
    assert [] + ([None] + rest) == [None] + rest;
  }

  /** A lone "%d" prints the integer value of its argument; later arguments
      are left over. */
  lemma FmtDigit(a: Option<string>, rest: seq<Option<string>>)
    ensures Fmt("%d", [a] + rest) == Some(IntToString(ParseInt(OrEmpty(a))))
  {
    var digits := IntToString(ParseInt(OrEmpty(a)));
    assert "%d"[2..] == "";
    assert ([a] + rest)[1..] == rest;
    assert Fmt("", rest) == Some("");
    assert digits + "" == digits;
  }

  /** Null reads as 0. */
  lemma NullDigit()
    ensures IntToString(ParseInt(OrEmpty(None))) == "0"
  {
    assert ParseInt("") == 0;
    assert IntToString(0) == "0";
  }

  // ---------------------------------------------------------------------------
  // Statements

  /** A statement and the parameters query() receives (null when the predicate
      was SQL text). */
  datatype Request = Request(query: string, params: Option<seq<Value>>)

  /** query($query, $params): with a non-empty parameter list the escaped
      parameters are substituted with vsprintf (None when vsprintf fails),
      otherwise the text is sent as it is. */
  function Execute(r: Request, esc: string -> string): (q: Option<string>)
    ensures r.params.None? || r.params.value == [] ==> q == Some(r.query)
    ensures r.params.Some? && r.params.value != [] ==>
      forall out :: Aligned(r.query, EscapeAll(r.params.value, esc), out) ==> q == Some(out)
    ensures r.params.Some? && r.params.value != [] ==>
      (q.Some? <==> Terminated(r.query) && Conversions(r.query) <= |r.params.value|)
  {
    if r.params.None? || r.params.value == [] then Some(r.query)
    else
      FmtExact(r.query, EscapeAll(r.params.value, esc));
      Fmt(r.query, EscapeAll(r.params.value, esc))
  }

  /** " LIMIT x" when the limit is not empty. */
  function LimitPart(limit: Value): string
  {
    if Empty(limit) then "" else " LIMIT " + StringOf(limit)
  }

  /** delete($table, $where, $limit). */
  method Delete(table: string, where: Value, limit: Value) returns (r: Request)
    ensures where.Arr? ==>
      r == Request("DELETE FROM `" + table + "` WHERE " + Join(" AND ", Conditions(where.entries)) + LimitPart(limit),
                   Some(Params(where.entries, FilterToken)))
    ensures !where.Arr? ==>
      r == Request("DELETE FROM `" + table + "` WHERE " + StringOf(where) + LimitPart(limit), None)
  {
    var text: string;
    var params: Option<seq<Value>>;
    if where.Arr? {
      params := Some(Params(where.entries, FilterToken));
      text := WhereText(where.entries);
    } else {
      params := None;
      text := StringOf(where);
    }
    r := Request("DELETE FROM `" + table + "` WHERE " + text + LimitPart(limit), params);
  }

  /** The column list and VALUES tuple of insert() and replace(). */
  function Tokens(vs: seq<Value>, comparator: bool): (r: seq<string>)
    ensures |r| == |vs| && forall i :: 0 <= i < |vs| ==> r[i] == Token(vs[i], comparator)
  {
    if |vs| == 0 then [] else [Token(vs[0], comparator)] + Tokens(vs[1..], comparator)
  }

  /** The column list of insert() and replace() with a given VALUES tuple. */
  function ColumnsOf(data: seq<(string, Value)>, tuple: string): string
  {
    "(`" + Join("`,`", Keys(data)) + "`) VALUES (" + tuple + ");"
  }

  function Columns(data: seq<(string, Value)>): string
  {
    ColumnsOf(data, Join(",", Tokens(Values(data), false)))
  }

  /** insert($table, $data, $delayed). */
  function Insert(table: string, data: seq<(string, Value)>, delayed: bool): (r: Request)
    ensures r.params == Some(Params(data, FilterToken))
  {
    Request("INSERT " + (if delayed then "DELAYED " else "") + "INTO `" + table + "` " + Columns(data),
            Some(Params(data, FilterToken)))
  }

  /** replace($table, $data). */
  function Replace(table: string, data: seq<(string, Value)>): (r: Request)
    ensures r.params == Some(Params(data, FilterToken))
  {
    Request("REPLACE INTO `" + table + "` " + Columns(data), Some(Params(data, FilterToken)))
  }

  /** insert() and replace() name the columns and give their tokens in the same
      order, one token per column. */
  lemma InsertColumnsMatchTokens(data: seq<(string, Value)>)
    ensures |Keys(data)| == |Tokens(Values(data), false)|
    ensures forall i :: 0 <= i < |data| ==> Keys(data)[i] == data[i].0 && Tokens(Values(data), false)[i] == Token(data[i].1, false)
  {
  }

  /** The column list of select(): an array of names is quoted and joined. */
  function What(what: Value): string
  {
    if what.Arr? then "`" + Join("`, `", Texts(Values(what.entries))) + "`" else StringOf(what)
  }

  /** The clauses select() appends after the table, each only when not empty. */
  function SelectTail(where: Value, order: Value, limit: Value): string
  {
    (if Empty(where) then "" else " WHERE " + StringOf(where)) +
    (if Empty(order) then "" else " ORDER BY " + StringOf(order)) +
    LimitPart(limit)
  }

  /** select($table, $what, $where, $order, $limit). An array predicate becomes
      its where clause; the keyed fetch that $primary asks for works on the
      result set and is not part of the statement. */
  method Select(table: string, what: Value, where: Value, order: Value, limit: Value) returns (r: Request)
    ensures r.query == "SELECT " + What(what) + " FROM `" + table + "`" +
      SelectTail(if where.Arr? then Str(Join(" AND ", Conditions(where.entries))) else where, order, limit)
    ensures r.params == if where.Arr? then Some(Params(where.entries, FilterToken)) else None
  {
    var whereValue := where;
    var params: Option<seq<Value>> := None;
    if where.Arr? {
      params := Some(Params(where.entries, FilterToken));
      var text := WhereText(where.entries);
      whereValue := Str(text);
    }
    r := Request("SELECT " + What(what) + " FROM `" + table + "`" + SelectTail(whereValue, order, limit), params);
  }

  /** One assignment of update(). */
  function Assignment(k: string, v: Value): string
  {
    "`" + k + "` = " + Token(v, false)
  }

  function Assignments(data: seq<(string, Value)>): (r: seq<string>)
    ensures |r| == |data| && forall i :: 0 <= i < |data| ==> r[i] == Assignment(data[i].0, data[i].1)
  {
    if |data| == 0 then [] else [Assignment(data[0].0, data[0].1)] + Assignments(data[1..])
  }

  /** update($table, $data, $where): the SET list in the data's order, then the
      where clause; the parameters are the data's, then the predicate's. */
  method Update(table: string, data: seq<(string, Value)>, where: Value) returns (r: Request)
    ensures where.Arr? ==>
      r == Request("UPDATE `" + table + "` SET " + Join(", ", Assignments(data)) + " WHERE " +
                   Join(" AND ", Conditions(where.entries)) + ";",
                   Some(Params(data, FilterToken) + Params(where.entries, FilterToken)))
    ensures !where.Arr? ==>
      r == Request("UPDATE `" + table + "` SET " + Join(", ", Assignments(data)) + " WHERE " +
                   StringOf(where) + ";",
                   Some(Params(data, FilterToken)))
  {
    var updates: seq<string> := [];
    for i := 0 to |data|
      invariant updates == Assignments(data[..i])
    {
      AssignmentsSnoc(data, i);
      updates := updates + [Assignment(data[i].0, data[i].1)];
    }
    assert data[..|data|] == data;
    var text: string;
    var params: seq<Value>;
    if where.Arr? {
      params := Params(data, FilterToken) + Params(where.entries, FilterToken);
      text := WhereText(where.entries);
    } else {
      params := Params(data, FilterToken);
      text := StringOf(where);
    }
    r := Request("UPDATE `" + table + "` SET " + Join(", ", updates) + " WHERE " + text + ";", Some(params));
  }

  lemma AssignmentsSnoc(data: seq<(string, Value)>, i: nat)
    requires i < |data|
    ensures Assignments(data[..i + 1]) == Assignments(data[..i]) + [Assignment(data[i].0, data[i].1)]
  {
  }

  // ---------------------------------------------------------------------------
  // What the statements send

  /** No entry's value is null. */
  predicate NoNulls(w: seq<(string, Value)>)
  {
    forall i :: 0 <= i < |w| ==> !w[i].1.Null?
  }

  /** No key holds a '%', which vsprintf would read as a conversion. */
  predicate PlainKeys(w: seq<(string, Value)>)
  {
    forall i :: 0 <= i < |w| ==> '%' !in w[i].0
  }

  /** Without nulls, filterToken as written passes the same values as the
      documented filter. */
  lemma {:induction false} ParamsWithoutNulls(w: seq<(string, Value)>)
    requires NoNulls(w)
    ensures Params(w, FilterToken) == Params(w, FilterTokenIntended)
    decreases |w|
  {
    if |w| > 0 {
      assert forall i :: 0 <= i < |w| - 1 ==> w[1..][i] == w[i + 1];
      ParamsWithoutNulls(w[1..]);
    }
  }

  /** No parameter means no value has a placeholder. */
  lemma {:induction false} NoParams(w: seq<(string, Value)>)
    requires Params(w, FilterTokenIntended) == []
    ensures forall i :: 0 <= i < |w| ==> !FilterTokenIntended(w[i].1)
    decreases |w|
  {
    if |w| > 0 {
      NoParams(w[1..]);
      assert forall i :: 1 <= i < |w| ==> w[i] == w[1..][i - 1];
    }
  }

  /** The VALUES tuple of insert() and replace(): with the documented filter,
      every value's placeholder gets that value, and the tuple prints the
      values' literals joined by ",". */
  lemma InsertAligned(data: seq<(string, Value)>, esc: string -> string)
    ensures Aligned(Join(",", Tokens(Values(data), false)), EscapeAll(Params(data, FilterTokenIntended), esc),
                    Join(",", Literals(Values(data), esc)))
  {
    var parts, args, outs := Tokens(Values(data), false), Args(data, esc), Literals(Values(data), esc);
    forall i | 0 <= i < |data|
      ensures Aligned(parts[i], args[i], outs[i])
    {
      TokenFmt(data[i].1, false, esc);
      AlignedEq(Token(data[i].1, false), Arg(data[i].1, esc), Literal(data[i].1, false, esc), parts[i], args[i], outs[i]);
    }
    CommaIsPlain();
    JoinFmt(",", parts, args, outs);
    ArgsAreIntendedParams(data, esc);
  }

  lemma CommaIsPlain()
    ensures '%' !in "," && '%' !in ", "
  {
    var comma, commaSpace := ",", ", ";
    assert comma == [','] && commaSpace == [',', ' '];
  }

  /** What an assignment should read once its argument is substituted. */
  function Assigned(data: seq<(string, Value)>, esc: string -> string): (r: seq<string>)
    ensures |r| == |data| && forall i :: 0 <= i < |data| ==> r[i] == "`" + data[i].0 + "` = " + Literal(data[i].1, false, esc)
  {
    if |data| == 0 then [] else ["`" + data[0].0 + "` = " + Literal(data[0].1, false, esc)] + Assigned(data[1..], esc)
  }

  lemma AssignmentFmt(k: string, v: Value, esc: string -> string)
    requires '%' !in k
    ensures Aligned(Assignment(k, v), Arg(v, esc), "`" + k + "` = " + Literal(v, false, esc))
  {
    var prefix := "`" + k + "` = ";
    AlignedLiteral(prefix);
    TokenFmt(v, false, esc);
    AlignedAppend(prefix, [], prefix, Token(v, false), Arg(v, esc), Literal(v, false, esc));
    assert [] + Arg(v, esc) == Arg(v, esc);
  }

  /** The SET list of update(): with the documented filter, every assignment
      gets its own value. */
  lemma UpdateSetAligned(data: seq<(string, Value)>, esc: string -> string)
    requires PlainKeys(data)
    ensures Aligned(Join(", ", Assignments(data)), EscapeAll(Params(data, FilterTokenIntended), esc),
                    Join(", ", Assigned(data, esc)))
  {
    var parts, args, outs := Assignments(data), Args(data, esc), Assigned(data, esc);
    forall i | 0 <= i < |data|
      ensures Aligned(parts[i], args[i], outs[i])
    {
      AssignmentFmt(data[i].0, data[i].1, esc);
    }
    CommaIsPlain();
    JoinFmt(", ", parts, args, outs);
    ArgsAreIntendedParams(data, esc);
  }

  /** A statement of literal text around one aligned part is sent with that
      part filled in. */
  lemma SendAround(head: string, body: string, tail: string, params: seq<Value>, esc: string -> string, out: string)
    requires '%' !in head && '%' !in tail
    requires Aligned(body, EscapeAll(params, esc), out)
    requires params == [] ==> body == out
    ensures Execute(Request(head + body + tail, Some(params)), esc) == Some(head + out + tail)
  {
    var args := EscapeAll(params, esc);
    AlignedLiteral(head);
    AlignedLiteral(tail);
    AlignedAppend(head, [], head, body, args, out);
    assert [] + args == args;
    AlignedAppend(head + body, args, head + out, tail, [], tail);
    assert args + [] == args;
  }

  /** With no null among the values, and no '%' in the table or the column
      names, insert() sends its statement with the tuple of the values'
      literals, each in its column. */
  lemma InsertRenders(table: string, data: seq<(string, Value)>, delayed: bool, esc: string -> string)
    requires '%' !in table && PlainKeys(data) && NoNulls(data)
    ensures Execute(Insert(table, data, delayed), esc) ==
      Some("INSERT " + (if delayed then "DELAYED " else "") + "INTO `" + table + "` " +
           ColumnsOf(data, Join(",", Literals(Values(data), esc))))
  {
    var verb := "INSERT " + (if delayed then "DELAYED " else "") + "INTO `" + table + "` ";
    InsertVerbPlain(delayed, table);
    ValuesRender(verb, data, esc);
  }

  /** With no null among the values, and no '%' in the table or the column
      names, replace() sends its statement with the tuple of the values'
      literals, each in its column. */
  lemma ReplaceRenders(table: string, data: seq<(string, Value)>, esc: string -> string)
    requires '%' !in table && PlainKeys(data) && NoNulls(data)
    ensures Execute(Replace(table, data), esc) ==
      Some("REPLACE INTO `" + table + "` " + ColumnsOf(data, Join(",", Literals(Values(data), esc))))
  {
    var verb := "REPLACE INTO `" + table + "` ";
    ReplaceVerbPlain(table);
    ValuesRender(verb, data, esc);
  }

  lemma InsertVerbPlain(delayed: bool, table: string)
    requires '%' !in table
    ensures '%' !in "INSERT " + (if delayed then "DELAYED " else "") + "INTO `" + table + "` "
  {
    var a, b, c, d := "INSERT ", "DELAYED ", "INTO `", "` ";
    assert a == ['I', 'N', 'S', 'E', 'R', 'T', ' '];
    assert b == ['D', 'E', 'L', 'A', 'Y', 'E', 'D', ' '];
    assert c == ['I', 'N', 'T', 'O', ' ', '`'];
    assert d == ['`', ' '];
  }

  lemma ReplaceVerbPlain(table: string)
    requires '%' !in table
    ensures '%' !in "REPLACE INTO `" + table + "` "
  {
    var a, d := "REPLACE INTO `", "` ";
    assert a == ['R', 'E', 'P', 'L', 'A', 'C', 'E', ' ', 'I', 'N', 'T', 'O', ' ', '`'];
    assert d == ['`', ' '];
  }

  /** The column list of insert() and replace() holds no '%' when no key does. */
  lemma ColumnListPlain(data: seq<(string, Value)>)
    requires PlainKeys(data)
    ensures '%' !in "(`" + Join("`,`", Keys(data)) + "`) VALUES ("
  {
    var sep, a, e := "`,`", "(`", "`) VALUES (";
    assert sep == ['`', ',', '`'];
    assert a == ['(', '`'];
    assert e == ['`', ')', ' ', 'V', 'A', 'L', 'U', 'E', 'S', ' ', '('];
    JoinPlain(sep, Keys(data));
  }

  /** The column list and VALUES tuple after a literal verb, sent with the
      parameters insert() and replace() pass. */
  lemma ValuesRender(verb: string, data: seq<(string, Value)>, esc: string -> string)
    requires '%' !in verb && PlainKeys(data) && NoNulls(data)
    ensures Execute(Request(verb + Columns(data), Some(Params(data, FilterToken))), esc) ==
      Some(verb + ColumnsOf(data, Join(",", Literals(Values(data), esc))))
  {
    var params := Params(data, FilterTokenIntended);
    var body, out := Join(",", Tokens(Values(data), false)), Join(",", Literals(Values(data), esc));
    ParamsWithoutNulls(data);
    InsertAligned(data, esc);
    if params == [] {
      NoParams(data);
      forall i | 0 <= i < |data|
        ensures Tokens(Values(data), false)[i] == Literals(Values(data), esc)[i]
      {
        TokenIsLiteral(data[i].1, false, esc);
      }
      assert Tokens(Values(data), false) == Literals(Values(data), esc);
    }
    var list := "(`" + Join("`,`", Keys(data)) + "`) VALUES (";
    ColumnListPlain(data);
    var tail := ");";
    assert tail == [')', ';'];
    SendAround(verb + list, body, tail, params, esc, out);
    AppendAssoc(verb, list + body, tail);
    AppendAssoc(verb, list, body);
    AppendAssoc(verb, list + out, tail);
    AppendAssoc(verb, list, out);
  }

  /** With no null in an array predicate, and no '%' in the table, the keys or
      the limit, delete() sends DELETE with every condition's value in place. */
  lemma DeleteRenders(table: string, w: seq<(string, Value)>, limit: Value, esc: string -> string)
    requires '%' !in table && '%' !in LimitPart(limit) && PlainKeys(w) && NoNulls(w)
    ensures Execute(Request("DELETE FROM `" + table + "` WHERE " + Join(" AND ", Conditions(w)) + LimitPart(limit),
                            Some(Params(w, FilterToken))), esc) ==
      Some("DELETE FROM `" + table + "` WHERE " + Join(" AND ", Rendered(w, esc)) + LimitPart(limit))
  {
    var head := "DELETE FROM `" + table + "` WHERE ";
    assert '%' !in head;
    WhereRender(head, w, LimitPart(limit), esc);
  }

  /** An array predicate after a literal head and before a literal tail, sent
      with the parameters delete() and select() pass. */
  lemma WhereRender(head: string, w: seq<(string, Value)>, tail: string, esc: string -> string)
    requires '%' !in head && '%' !in tail && PlainKeys(w) && NoNulls(w)
    ensures Execute(Request(head + Join(" AND ", Conditions(w)) + tail, Some(Params(w, FilterToken))), esc) ==
      Some(head + Join(" AND ", Rendered(w, esc)) + tail)
  {
    var params := Params(w, FilterTokenIntended);
    ParamsWithoutNulls(w);
    WhereAligned(w, esc);
    if params == [] {
      ConditionsArePlain(w, esc);
    }
    SendAround(head, Join(" AND ", Conditions(w)), tail, params, esc, Join(" AND ", Rendered(w, esc)));
  }

  /** Without any parameter, the conditions already read as rendered. */
  lemma ConditionsArePlain(w: seq<(string, Value)>, esc: string -> string)
    requires Params(w, FilterTokenIntended) == []
    ensures Conditions(w) == Rendered(w, esc)
  {
    NoParams(w);
    forall i | 0 <= i < |w|
      ensures Conditions(w)[i] == Rendered(w, esc)[i]
    {
      TokenIsLiteral(w[i].1, true, esc);
    }
  }

  /** With no null in an array predicate, and no '%' in the table, the column
      list, the ORDER BY or the LIMIT text, select() sends SELECT with every
      condition's value in place; an empty predicate leaves out WHERE. */
  lemma SelectRenders(table: string, what: Value, w: seq<(string, Value)>, order: Value, limit: Value, esc: string -> string)
    requires '%' !in table && '%' !in What(what) && '%' !in SelectTail(Null, order, limit)
    requires PlainKeys(w) && NoNulls(w)
    ensures Execute(Request("SELECT " + What(what) + " FROM `" + table + "`" +
                            SelectTail(Str(Join(" AND ", Conditions(w))), order, limit),
                            Some(Params(w, FilterToken))), esc) ==
      Some("SELECT " + What(what) + " FROM `" + table + "`" + SelectTail(Str(Join(" AND ", Rendered(w, esc))), order, limit))
  {
    if |w| == 0 {
      assert Conditions(w) == [] == Rendered(w, esc);
    } else {
      var j, o := Join(" AND ", Conditions(w)), Join(" AND ", Rendered(w, esc));
      WhereStartsQuoted(w, esc);
      SelectTailWhere(j, order, limit);
      SelectTailWhere(o, order, limit);
      var from := "SELECT " + What(what) + " FROM `" + table + "`";
      SelectFromPlain(what, table);
      var where, rest := " WHERE ", SelectTail(Null, order, limit);
      assert where == [' ', 'W', 'H', 'E', 'R', 'E', ' '];
      WhereRender(from + where, w, rest, esc);
      AppendAssoc(from, where + j, rest);
      AppendAssoc(from, where, j);
      AppendAssoc(from, where + o, rest);
      AppendAssoc(from, where, o);
    }
  }

  /** A non-empty array predicate, as written and as rendered, starts with the
      back-quote of its first key. */
  lemma WhereStartsQuoted(w: seq<(string, Value)>, esc: string -> string)
    requires |w| > 0
    ensures var j := Join(" AND ", Conditions(w)); |j| > 0 && j[0] == '`'
    ensures var o := Join(" AND ", Rendered(w, esc)); |o| > 0 && o[0] == '`'
  {
    assert Conditions(w)[0][0] == '`';
    assert Rendered(w, esc)[0][0] == '`';
  }

  /** A where text starting with a back-quote is never empty(), so select()
      puts WHERE before it. */
  lemma SelectTailWhere(j: string, order: Value, limit: Value)
    requires |j| > 0 && j[0] == '`'
    ensures SelectTail(Str(j), order, limit) == " WHERE " + j + SelectTail(Null, order, limit)
  {
    assert j != "0" by {
      assert "0"[0] == '0';
    }
  }

  lemma SelectFromPlain(what: Value, table: string)
    requires '%' !in What(what) && '%' !in table
    ensures '%' !in "SELECT " + What(what) + " FROM `" + table + "`"
  {
    var a, b, c := "SELECT ", " FROM `", "`";
    assert a == ['S', 'E', 'L', 'E', 'C', 'T', ' '];
    assert b == [' ', 'F', 'R', 'O', 'M', ' ', '`'];
    assert c == ['`'];
  }

  /** With no null in the data or in an array predicate, and no '%' in the
      table or the keys, update() sends UPDATE with every assignment's and
      every condition's value in place. */
  lemma UpdateRenders(table: string, data: seq<(string, Value)>, w: seq<(string, Value)>, esc: string -> string)
    requires '%' !in table && PlainKeys(data) && NoNulls(data) && PlainKeys(w) && NoNulls(w)
    ensures Execute(Request("UPDATE `" + table + "` SET " + Join(", ", Assignments(data)) + " WHERE " +
                            Join(" AND ", Conditions(w)) + ";",
                            Some(Params(data, FilterToken) + Params(w, FilterToken))), esc) ==
      Some("UPDATE `" + table + "` SET " + Join(", ", Assigned(data, esc)) + " WHERE " + Join(" AND ", Rendered(w, esc)) + ";")
  {
    var pd, pw := Params(data, FilterTokenIntended), Params(w, FilterTokenIntended);
    ParamsWithoutNulls(data);
    ParamsWithoutNulls(w);
    var sd, od := Join(", ", Assignments(data)), Join(", ", Assigned(data, esc));
    var sw, ow := Join(" AND ", Conditions(w)), Join(" AND ", Rendered(w, esc));
    UpdateBodyAligned(data, w, esc);
    var head := "UPDATE `" + table + "` SET ";
    UpdateHeadPlain(table);
    var tail := ";";
    assert tail == [';'];
    SendAround(head, sd + " WHERE " + sw, tail, pd + pw, esc, od + " WHERE " + ow);
    UpdateAssoc(head, sd, " WHERE ", sw, tail);
    UpdateAssoc(head, od, " WHERE ", ow, tail);
  }

  /** The SET list and the where clause of update(), with the documented
      filter's parameters, data first. */
  lemma UpdateBodyAligned(data: seq<(string, Value)>, w: seq<(string, Value)>, esc: string -> string)
    requires PlainKeys(data) && PlainKeys(w)
    ensures var pd, pw := Params(data, FilterTokenIntended), Params(w, FilterTokenIntended);
      var body := Join(", ", Assignments(data)) + " WHERE " + Join(" AND ", Conditions(w));
      var out := Join(", ", Assigned(data, esc)) + " WHERE " + Join(" AND ", Rendered(w, esc));
      Aligned(body, EscapeAll(pd + pw, esc), out) && (pd + pw == [] ==> body == out)
  {
    var pd, pw := Params(data, FilterTokenIntended), Params(w, FilterTokenIntended);
    var ad, aw := EscapeAll(pd, esc), EscapeAll(pw, esc);
    UpdateSetAligned(data, esc);
    WhereAligned(w, esc);
    var sd, od := Join(", ", Assignments(data)), Join(", ", Assigned(data, esc));
    var sw, ow := Join(" AND ", Conditions(w)), Join(" AND ", Rendered(w, esc));
    var where := " WHERE ";
    assert where == [' ', 'W', 'H', 'E', 'R', 'E', ' '];
    AlignedLiteral(where);
    AlignedAppend(sd, ad, od, where, [], where);
    assert ad + [] == ad;
    AlignedAppend(sd + where, ad, od + where, sw, aw, ow);
    EscapeAllAppend(pd, pw, esc);
    if pd + pw == [] {
      assert pd == [] && pw == [];
      AssignmentsArePlain(data, esc);
      ConditionsArePlain(w, esc);
    }
  }

  /** A text predicate becomes part of update()'s vsprintf format, so every
      conversion in it takes an argument that no field supplies: the format runs
      out of arguments and query() sends no statement. */
  lemma UpdateTextTakesArguments(table: string, data: seq<(string, Value)>, text: string, esc: string -> string)
    requires '%' !in table && PlainKeys(data) && NoNulls(data)
    requires Params(data, FilterToken) != [] && Conversions(text) > 0
    ensures Execute(Request("UPDATE `" + table + "` SET " + Join(", ", Assignments(data)) + " WHERE " + text + ";",
                            Some(Params(data, FilterToken))), esc) == None
  {
    var p := Params(data, FilterToken);
    ParamsWithoutNulls(data);
    UpdateSetAligned(data, esc);
    var head, sd, where := "UPDATE `" + table + "` SET ", Join(", ", Assignments(data)), " WHERE ";
    UpdateHeadPlain(table);
    assert where == [' ', 'W', 'H', 'E', 'R', 'E', ' '];
    FmtLiteral(head);
    FmtLiteral(where);
    assert head[|head| - 1] == ' ';
    ConversionsAppend(head, sd);
    assert (head + sd)[|head + sd| - 1] != '%' by {
      if |sd| > 0 {
        assert (head + sd)[|head + sd| - 1] == sd[|sd| - 1];
      }
    }
    ConversionsAppend(head + sd, where);
    var a := head + sd + where;
    assert a[|a| - 1] == ' ';
    ConversionsAppend(a, text + ";");
    ConversionsGrow(text, ";");
    AppendAssoc(a, text, ";");
    FmtExact(a + text + ";", EscapeAll(p, esc));
  }

  /** Text appended to a format never takes away a conversion. */
  lemma {:induction false} ConversionsGrow(t: string, u: string)
    ensures Conversions(t + u) >= Conversions(t)
    decreases |t|
  {
    if |t| >= 2 && t[0] == '%' {
      assert (t + u)[0] == t[0] && (t + u)[1] == t[1];
      DropAppend(t, u, 2);
      ConversionsGrow(t[2..], u);
    } else if |t| >= 1 && t[0] != '%' {
      assert (t + u)[0] == t[0];
      DropAppend(t, u, 1);
      ConversionsGrow(t[1..], u);
    }
  }

  /** `code LIKE 'A%b'` holds the conversion %b, so update('t', ['a' => 1],
      "code LIKE 'A%b'") sends no statement. */
  lemma LikePatternTakesArgument(esc: string -> string)
    ensures Conversions("code LIKE 'A%b'") == 1
    ensures Execute(Request("UPDATE `t` SET " + Join(", ", Assignments([("a", Int(1))])) + " WHERE " + "code LIKE 'A%b'" + ";",
                            Some(Params([("a", Int(1))], FilterToken))), esc) == None
  {
    LikePatternConversions();
    var data := [("a", Int(1))];
    OneIntField(data);
    TableT();
    UpdateTextTakesArguments("t", data, "code LIKE 'A%b'", esc);
  }

  lemma LikePatternConversions()
    ensures Conversions("code LIKE 'A%b'") == 1
  {
    var pre, conv := "code LIKE 'A", "%b'";
    assert pre == ['c', 'o', 'd', 'e', ' ', 'L', 'I', 'K', 'E', ' ', '\'', 'A'];
    FmtLiteral(pre);
    ConversionAtFront(conv);
    ConversionsAppend(pre, conv);
    assert pre + conv == "code LIKE 'A%b'";
  }

  lemma ConversionAtFront(conv: string)
    requires conv == "%b'"
    ensures Conversions(conv) == 1
  {
    assert conv[2..] == "'";
    assert Conversions("'") == 0;
  }

  lemma OneIntField(data: seq<(string, Value)>)
    requires data == [("a", Int(1))]
    ensures PlainKeys(data) && NoNulls(data) && Params(data, FilterToken) == [Int(1)]
  {
    var a := "a";
    assert a == ['a'];
  }

  lemma TableT()
    ensures '%' !in "t" && "UPDATE `" + "t" + "` SET " == "UPDATE `t` SET "
  {
    var t := "t";
    assert t == ['t'];
  }

  /** Without any parameter, the assignments already read as rendered. */
  lemma AssignmentsArePlain(data: seq<(string, Value)>, esc: string -> string)
    requires Params(data, FilterTokenIntended) == []
    ensures Assignments(data) == Assigned(data, esc)
  {
    NoParams(data);
    forall i | 0 <= i < |data|
      ensures Assignments(data)[i] == Assigned(data, esc)[i]
    {
      TokenIsLiteral(data[i].1, false, esc);
    }
  }

  lemma UpdateHeadPlain(table: string)
    requires '%' !in table
    ensures '%' !in "UPDATE `" + table + "` SET "
  {
    var a, b := "UPDATE `", "` SET ";
    assert a == ['U', 'P', 'D', 'A', 'T', 'E', ' ', '`'];
    assert b == ['`', ' ', 'S', 'E', 'T', ' '];
  }

  lemma UpdateAssoc(head: string, a: string, b: string, c: string, tail: string)
    ensures head + (a + b + c) + tail == head + a + b + c + tail
  {
    AppendAssoc(head, a + b, c);
    AppendAssoc(head, a, b);
  }

  /** As written, insert(['a' => null, 'b' => 5]) writes the tuple NULL,0: the
      null passes filterToken and takes b's %d. */
  lemma InsertNullShiftsValues(esc: string -> string)
    ensures var data := [("a", Null), ("b", Int(5))];
      Fmt(Join(",", Tokens(Values(data), false)), EscapeAll(Params(data, FilterToken), esc)) == Some("NULL,0")
  {
    var data := [("a", Null), ("b", Int(5))];
    assert Values(data) == [Null, Int(5)];
    assert Tokens(Values(data), false) == ["NULL", "%d"];
    assert ["NULL", "%d"][1..] == ["%d"];
    assert Join(",", Tokens(Values(data), false)) == "NULL," + "%d";
    assert Params(data, FilterToken) == [Null, Int(5)];
    assert IntToString(5) == "5";
    assert EscapeAll([Null, Int(5)], esc) == [None, Some("5")];
    var head := "NULL,";
    assert head == ['N', 'U', 'L', 'L', ','];
    DigitOfNothing(head, [Some("5")]);
    assert [None] + [Some("5")] == [None, Some("5")];
    assert Join(",", Tokens(Values(data), false)) == head + "%d";
    assert head + "0" == "NULL,0";
  }
}

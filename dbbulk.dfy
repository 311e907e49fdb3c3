/** The bulk statement buffer: rows are appended and spliced out one at a time,
    and commit turns them into one multi-row INSERT/REPLACE statement, after
    which the buffer is empty. The statement is built and then dropped without
    being sent; the model returns it so that its text can be stated. */
module Bulk {
  import opened Php
  import opened Db

  /** array_splice($data, $index, 1): a negative index counts from the end
      (clamped at 0), an index at or past the end removes nothing. */
  function Splice<T>(s: seq<T>, index: int): (r: seq<T>)
  {
    var n := |s|;
    var o := if index > n then n else if index >= 0 then index else if n + index < 0 then 0 else n + index;
    if o < n then s[..o] + s[o + 1..] else s
  }

  /** Removing an index inside the buffer deletes exactly that row: the rows
      before it stay, the rows after it move down by one, and nothing else is
      lost. */
  lemma SpliceRemovesOne<T>(s: seq<T>, i: int)
    requires 0 <= i < |s|
    ensures var r := Splice(s, i);
      |r| == |s| - 1 && r[..i] == s[..i] &&
      (forall j :: i <= j < |r| ==> r[j] == s[j + 1]) &&
      multiset(r) + multiset{s[i]} == multiset(s)
  {
    assert s == s[..i] + [s[i]] + s[i + 1..];
  }

  /** A negative index removes the row that many places from the end. */
  lemma SpliceFromEnd<T>(s: seq<T>, i: int)
    requires -|s| <= i < 0
    ensures Splice(s, i) == Splice(s, |s| + i)
  {
  }

  /** An index past the end leaves the buffer as it is. */
  lemma SplicePastEnd<T>(s: seq<T>, i: int)
    requires i >= |s|
    ensures Splice(s, i) == s
  {
  }

  /** The text of one buffered row as commit writes it: the values' tokens
      joined by ",", with every value's escape substituted (a failing vsprintf
      gives false, which prints as nothing). */
  function RowText(row: seq<Value>, esc: string -> string): string
  {
    OrEmpty(Fmt(Join(",", Tokens(row, false)), EscapeAll(row, esc)))
  }

  function RowTexts(rows: seq<seq<Value>>, esc: string -> string): (r: seq<string>)
    ensures |r| == |rows| && forall i :: 0 <= i < |rows| ==> r[i] == RowText(rows[i], esc)
  {
    seq(|rows|, i requires 0 <= i < |rows| => RowText(rows[i], esc))
  }

  /** The statement commit builds: "<op> INTO <table> (`f1`,`f2`) VALUES
      (row1),(row2)". */
  function Statement(operation: string, table: string, fields: seq<string>, rows: seq<string>): string
  {
    operation + " INTO " + table + " (`" + Join("`,`", fields) + "`) VALUES (" + Join("),(", rows) + ")"
  }

  /** The values of a row that have a placeholder. */
  function Placeheld(row: seq<Value>): (r: seq<Value>)
    ensures |r| <= |row|
  {
    if |row| == 0 then []
    else (if FilterTokenIntended(row[0]) then [row[0]] else []) + Placeheld(row[1..])
  }

  /** A row's text as evidently intended: only the values with a placeholder are
      substituted. */
  function RowTextIntended(row: seq<Value>, esc: string -> string): string
  {
    OrEmpty(Fmt(Join(",", Tokens(row, false)), EscapeAll(Placeheld(row), esc)))
  }

  function RowArgs(row: seq<Value>, esc: string -> string): (r: seq<seq<Option<string>>>)
    ensures |r| == |row| && forall i :: 0 <= i < |row| ==> r[i] == Arg(row[i], esc)
  {
    if |row| == 0 then [] else [Arg(row[0], esc)] + RowArgs(row[1..], esc)
  }

  lemma {:induction false} RowArgsArePlaceheld(row: seq<Value>, esc: string -> string)
    ensures Flatten(RowArgs(row, esc)) == EscapeAll(Placeheld(row), esc)
    decreases |row|
  {
    if |row| > 0 {
      RowArgsArePlaceheld(row[1..], esc);
      assert RowArgs(row, esc)[1..] == RowArgs(row[1..], esc);
      var head := if FilterTokenIntended(row[0]) then [row[0]] else [];
      EscapeAllAppend(head, Placeheld(row[1..]), esc);
    }
  }

  /** As intended, every value of a row appears in its own column: the row
      text is the values' literals joined by ",". */
  lemma RowAligned(row: seq<Value>, esc: string -> string)
    ensures RowTextIntended(row, esc) == Join(",", Literals(row, esc))
  {
    var parts, args, outs := Tokens(row, false), RowArgs(row, esc), Literals(row, esc);
    forall i | 0 <= i < |row|
      ensures Aligned(parts[i], args[i], outs[i])
    {
      TokenFmt(row[i], false, esc);
      AlignedEq(Token(row[i], false), Arg(row[i], esc), Literal(row[i], false, esc), parts[i], args[i], outs[i]);
    }
    CommaIsPlain();
    JoinFmt(",", parts, args, outs);
    RowArgsArePlaceheld(row, esc);
  }

  /** A row whose every value has a placeholder is written as intended. */
  lemma {:induction false} RowTextWithoutNulls(row: seq<Value>, esc: string -> string)
    requires forall i :: 0 <= i < |row| ==> FilterTokenIntended(row[i])
    ensures RowText(row, esc) == RowTextIntended(row, esc)
    decreases |row|
  {
    if |row| > 0 {
      RowTextWithoutNulls(row[1..], esc);
      PlaceheldAll(row);
    }
  }

  lemma {:induction false} PlaceheldAll(row: seq<Value>)
    requires forall i :: 0 <= i < |row| ==> FilterTokenIntended(row[i])
    ensures Placeheld(row) == row
    decreases |row|
  {
    if |row| > 0 {
      PlaceheldAll(row[1..]);
      assert [row[0]] + row[1..] == row;
    }
  }

  /** As written, a null in a row takes the next value's place: the row
      [null, 5] is written NULL,0. */
  lemma RowNullShiftsValues(esc: string -> string)
    ensures RowText([Null, Int(5)], esc) == "NULL,0"
  {
    var row := [Null, Int(5)];
    assert Tokens(row, false) == ["NULL", "%d"];
    assert ["NULL", "%d"][1..] == ["%d"];
    assert Join(",", Tokens(row, false)) == "NULL," + "%d";
    assert IntToString(5) == "5";
    assert EscapeAll(row, esc) == [None, Some("5")];
    DigitOfNothing("NULL,", [Some("5")]);
    assert "NULL," + "0" == "NULL,0";
  }

  /** As intended, the same row is written NULL,5. */
  lemma RowNullIntended(esc: string -> string)
    ensures RowTextIntended([Null, Int(5)], esc) == "NULL,5"
  {
    RowAligned([Null, Int(5)], esc);
    NullFiveLiterals(esc);
    JoinPair(",", "NULL", "5");
    assert "NULL" + "," + "5" == "NULL,5";
  }

  lemma NullFiveLiterals(esc: string -> string)
    ensures Literals([Null, Int(5)], esc) == ["NULL", "5"]
  {
    var lits := Literals([Null, Int(5)], esc);
    assert IntToString(5) == "5";
    assert lits[0] == Literal(Null, false, esc) == "NULL";
    assert lits[1] == Literal(Int(5), false, esc) == "" + "5" == "5";
  }

  /** implode() of two parts puts the separator between them. */
  lemma JoinPair(sep: string, a: string, b: string)
    ensures Join(sep, [a, b]) == a + sep + b
  {
    assert [a, b][1..] == [b];
  }

  /** A DbBulk: the operation (INSERT or REPLACE), table and column names it
      was made with, the database's string escape, and the rows added so far. */
  class DbBulk {
    const operation: string
    const table: string
    const fields: seq<string>
    const esc: string -> string
    var data: seq<seq<Value>>

    constructor(esc: string -> string, operation: string, table: string, fields: seq<string>)
      ensures this.esc == esc && this.operation == operation && this.table == table && this.fields == fields
      ensures data == []
    {
      this.esc := esc;
      this.operation := operation;
      this.table := table;
      this.fields := fields;
      data := [];
    }

    /** add($values): appends the row and returns its index. */
    method Add(values: seq<Value>) returns (index: int)
      modifies this
      ensures data == old(data) + [values]
      ensures index == |data| - 1 && 0 <= index && data[index] == values
    {
      data := data + [values];
      index := |data| - 1;
    }

    /** remove($index): splices one row out. */
    method Remove(index: int)
      modifies this
      ensures data == Splice(old(data), index)
    {
      data := Splice(data, index);
    }

    /** commit(): nothing on an empty buffer; otherwise one text per row in
        buffer order, the statement over them, and an empty buffer. */
    method Commit() returns (query: Option<string>)
      modifies this
      ensures old(data) == [] ==> query.None? && data == []
      ensures old(data) != [] ==>
        query == Some(Statement(operation, table, fields, RowTexts(old(data), esc))) && data == []
    {
      if data == [] {
        return None;
      }
      var rows: seq<string> := [];
      for i := 0 to |data|
        invariant |rows| == i
        invariant forall j :: 0 <= j < i ==> rows[j] == RowText(data[j], esc)
      {
        rows := rows + [RowText(data[i], esc)];
      }
      assert rows == RowTexts(data, esc);
      query := Some(operation + " INTO " + table + " (`" + Join("`,`", fields) + "`) VALUES (" + Join("),(", rows) + ")");
      data := [];
    }
  }
}

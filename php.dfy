/** PHP values and the handful of PHP built-ins the data-access layer leans on:
    integer/string casts, empty(), implode/explode/trim/strtolower, array_slice
    and the %d/%s subset of vsprintf. */
module Php {

  datatype Option<T> = None | Some(value: T)

  /** A PHP value as the data layer distinguishes it. Floats are not modelled.
      An array is an ordered map whose keys are written canonically as strings
      (PHP stores the key "7" as the integer 7, whose text is again "7").
      Obj is an entity instance, seen through its id (null for an unsaved one). */
  datatype Value =
    | Null
    | Bool(b: bool)
    | Int(i: int)
    | Str(s: string)
    | Obj(id: Option<int>)
    | Arr(entries: seq<(string, Value)>)
    | Resource(handle: int)

  // ---------------------------------------------------------------------------
  // Decimal text of integers, and PHP's (int) cast of a string

  predicate IsDigit(c: char) { '0' <= c <= '9' }

  function DigitChar(d: nat): (c: char)
    requires d < 10
    ensures IsDigit(c) && c as int - '0' as int == d
  {
    ('0' as int + d) as char
  }

  function NatToString(n: nat): (s: string)
    ensures |s| >= 1
    ensures forall i :: 0 <= i < |s| ==> IsDigit(s[i])
    decreases n
  {
    if n < 10 then [DigitChar(n)] else NatToString(n / 10) + [DigitChar(n % 10)]
  }

  /** PHP's (string) of an integer: optional "-" then the decimal digits. */
  function IntToString(i: int): string
  {
    if i < 0 then "-" + NatToString(-i) else NatToString(i)
  }

  /** Length of the leading run of decimal digits. */
  function DigitRun(s: string): (n: nat)
    ensures n <= |s|
    ensures forall i :: 0 <= i < n ==> IsDigit(s[i])
    ensures n < |s| ==> !IsDigit(s[n])
  {
    if |s| == 0 || !IsDigit(s[0]) then 0 else 1 + DigitRun(s[1..])
  }

  function DigitValue(c: char): nat
    requires IsDigit(c)
  {
    c as int - '0' as int
  }

  /** Value of a string of decimal digits. */
  function DigitsValue(d: string): nat
    requires forall i :: 0 <= i < |d| ==> IsDigit(d[i])
  {
    if |d| == 0 then 0 else DigitsValue(d[..|d| - 1]) * 10 + DigitValue(d[|d| - 1])
  }

  predicate IsSpace(c: char) { c == ' ' || c == '\t' || c == '\n' || c == '\r' || c == '\U{B}' || c == '\U{C}' }

  function SkipSpace(s: string): (t: string)
    ensures |t| <= |s| && t == s[|s| - |t|..]
    ensures |t| > 0 ==> !IsSpace(t[0])
  {
    if |s| > 0 && IsSpace(s[0]) then SkipSpace(s[1..]) else s
  }

  /** PHP's (int) cast of a string: leading white space, an optional sign, the
      longest run of digits; 0 when there are no digits. */
  function ParseInt(s: string): int
  {
    var t := SkipSpace(s);
    if |t| > 0 && (t[0] == '-' || t[0] == '+') then
      var v: int := DigitsValue(t[1..][..DigitRun(t[1..])]);
      if t[0] == '-' then -v else v
    else
      DigitsValue(t[..DigitRun(t)])
  }

  lemma {:induction false} NatToStringValue(n: nat)
    ensures DigitsValue(NatToString(n)) == n
    decreases n
  {
    if n >= 10 {
      var p := NatToString(n / 10);
      var s := p + [DigitChar(n % 10)];
      assert s[..|s| - 1] == p;
      NatToStringValue(n / 10);
    }
  }

  lemma {:induction false} DigitRunAll(s: string)
    requires forall i :: 0 <= i < |s| ==> IsDigit(s[i])
    ensures DigitRun(s) == |s|
  {
    if |s| > 0 {
      DigitRunAll(s[1..]);
    }
  }

  lemma {:induction false} DigitRunStops(s: string, t: string)
    requires forall i :: 0 <= i < |s| ==> IsDigit(s[i])
    requires |t| > 0 && !IsDigit(t[0])
    ensures DigitRun(s + t) == |s|
  {
    if |s| > 0 {
      assert (s + t)[1..] == s[1..] + t;
      DigitRunStops(s[1..], t);
    } else {
      assert s + t == t;
    }
  }

  /** (int)(string)$n == $n for every integer. */
  lemma ParseIntRoundTrip(n: int)
    ensures ParseInt(IntToString(n)) == n
  {
    ParseIntPrefix(n, "");
    assert IntToString(n) + "" == IntToString(n);
  }

  /** The digits of a natural number, followed by anything that is not a digit,
      read back as that number. */
  lemma {:induction false} DigitsPrefix(m: nat, rest: string)
    requires |rest| == 0 || !IsDigit(rest[0])
    ensures var s := NatToString(m) + rest; DigitsValue(s[..DigitRun(s)]) == m
  {
    var d := NatToString(m);
    if |rest| == 0 {
      DigitRunAll(d);
      assert d + rest == d;
    } else {
      DigitRunStops(d, rest);
    }
    assert (d + rest)[..DigitRun(d + rest)] == d;
    NatToStringValue(m);
  }

  lemma ParseIntUnsigned(d: string)
    requires |d| > 0 && IsDigit(d[0])
    ensures ParseInt(d) == DigitsValue(d[..DigitRun(d)])
  {
    assert !IsSpace(d[0]);
    var t := SkipSpace(d);
    assert t == d;
    assert !(t[0] == '-' || t[0] == '+');
  }

  lemma ParseIntNegative(d: string)
    ensures ParseInt("-" + d) + DigitsValue(d[..DigitRun(d)]) == 0
  {
    var s := "-" + d;
    assert s[0] == '-' && s[1..] == d;
    SkipNoSpace(s);
  }

  /** A string that does not start with white space is read from its start. */
  lemma SkipNoSpace(s: string)
    requires |s| > 0 && !IsSpace(s[0])
    ensures SkipSpace(s) == s
  {
  }

  /** The cast stops at the first non-digit: (int)("$n,rest") == $n. */
  lemma {:induction false} ParseIntPrefix(n: int, rest: string)
    requires |rest| == 0 || !IsDigit(rest[0])
    ensures ParseInt(IntToString(n) + rest) == n
  {
    if n < 0 {
      var d := NatToString(-n);
      assert IntToString(n) == "-" + d;
      assert ("-" + d) + rest == "-" + (d + rest);
      ParseIntNegative(d + rest);
      DigitsPrefix(-n, rest);
    } else {
      var d := NatToString(n);
      assert IntToString(n) == d;
      assert (d + rest)[0] == d[0];
      ParseIntUnsigned(d + rest);
      DigitsPrefix(n, rest);
    }
  }

  // ---------------------------------------------------------------------------
  // Casts and truthiness

  /** PHP's (int) cast. An object converts to 1 (with a notice). */
  function IntCast(v: Value): int
  {
    match v
    case Null => 0
    case Bool(b) => if b then 1 else 0
    case Int(i) => i
    case Str(s) => ParseInt(s)
    case Obj(_) => 1
    case Arr(e) => if |e| == 0 then 0 else 1
    case Resource(h) => h
  }

  /** PHP's (string) cast and string interpolation. An entity converts through
      its __toString, which is its id. */
  function StringOf(v: Value): string
  {
    match v
    case Null => ""
    case Bool(b) => if b then "1" else ""
    case Int(i) => IntToString(i)
    case Str(s) => s
    case Obj(id) => if id.Some? then IntToString(id.value) else ""
    case Arr(_) => "Array"
    case Resource(h) => "Resource id #" + IntToString(h)
  }

  /** The string forms of a list of values. */
  function Texts(vs: seq<Value>): (r: seq<string>)
    ensures |r| == |vs| && forall i :: 0 <= i < |vs| ==> r[i] == StringOf(vs[i])
  {
    if |vs| == 0 then [] else [StringOf(vs[0])] + Texts(vs[1..])
  }

  /** PHP's empty(). */
  predicate Empty(v: Value)
  {
    match v
    case Null => true
    case Bool(b) => !b
    case Int(i) => i == 0
    case Str(s) => s == "" || s == "0"
    case Obj(_) => false
    case Arr(e) => |e| == 0
    case Resource(_) => false
  }

  /** An integer numeric string as PHP 7 recognises it: leading white space, an
      optional sign, at least one digit and nothing after. */
  predicate IsNumeric(s: string)
  {
    var t := SkipSpace(s);
    var u := if |t| > 0 && (t[0] == '-' || t[0] == '+') then t[1..] else t;
    |u| > 0 && DigitRun(u) == |u|
  }

  /** PHP 7's loose comparison `$s == $v` of a string with any value. */
  predicate LooseEqualsString(s: string, v: Value)
  {
    match v
    case Null => s == ""
    case Bool(b) => Truthy(s) == b
    case Int(i) => ParseInt(s) == i
    case Str(t) => if IsNumeric(s) && IsNumeric(t) then ParseInt(s) == ParseInt(t) else s == t
    case Obj(_) => StringOf(v) == s
    case Arr(_) => false
    case Resource(h) => ParseInt(s) == h
  }

  /** in_array($s, $values) with its default, loose comparison. */
  predicate InArrayLoose(s: string, values: seq<Value>)
  {
    exists i :: 0 <= i < |values| && LooseEqualsString(s, values[i])
  }

  /** Truthiness of a string in `?:`: "" and "0" are false. */
  predicate Truthy(s: string) { s != "" && s != "0" }

  // ---------------------------------------------------------------------------
  // String helpers

  function LowerChar(c: char): char
  {
    if 'A' <= c <= 'Z' then (c as int + 32) as char else c
  }

  /** strtolower on ASCII letters. */
  function ToLower(s: string): (r: string)
    ensures |r| == |s|
    ensures forall i :: 0 <= i < |s| ==> r[i] == LowerChar(s[i])
  {
    if |s| == 0 then "" else [LowerChar(s[0])] + ToLower(s[1..])
  }

  /** implode($sep, $parts). */
  function Join(sep: string, parts: seq<string>): string
  {
    if |parts| == 0 then ""
    else if |parts| == 1 then parts[0]
    else parts[0] + sep + Join(sep, parts[1..])
  }

  /** explode($d, $s) for a one-character delimiter. */
  function Split(s: string, d: char): (parts: seq<string>)
    ensures |parts| >= 1
  {
    if |s| == 0 then [""]
    else if s[0] == d then [""] + Split(s[1..], d)
    else
      var r := Split(s[1..], d);
      [[s[0]] + r[0]] + r[1..]
  }

  lemma {:induction false} SplitNoDelimiter(s: string, d: char)
    requires d !in s
    ensures Split(s, d) == [s]
  {
    if |s| > 0 {
      SplitNoDelimiter(s[1..], d);
      assert [s[0]] + s[1..] == s;
    }
  }

  lemma {:induction false} SplitConcat(a: string, d: char, b: string)
    requires d !in a
    ensures Split(a + [d] + b, d) == [a] + Split(b, d)
  {
    if |a| == 0 {
      assert a + [d] + b == [d] + b;
      assert ([d] + b)[1..] == b;
    } else {
      assert (a + [d] + b)[1..] == a[1..] + [d] + b;
      SplitConcat(a[1..], d, b);
      assert [a[0]] + a[1..] == a;
    }
  }

  /** explode undoes implode when no part contains the delimiter. */
  lemma {:induction false} SplitJoin(parts: seq<string>, d: char)
    requires |parts| >= 1
    requires forall i :: 0 <= i < |parts| ==> d !in parts[i]
    ensures Split(Join([d], parts), d) == parts
  {
    if |parts| == 1 {
      SplitNoDelimiter(parts[0], d);
    } else {
      var rest := Join([d], parts[1..]);
      assert Join([d], parts) == parts[0] + [d] + rest;
      SplitJoin(parts[1..], d);
      SplitConcat(parts[0], d, rest);
      assert [parts[0]] + parts[1..] == parts;
    }
  }

  /** ltrim($s, $c): the leading copies of c removed, and nothing else. */
  function TrimLeft(s: string, c: char): (r: string)
    ensures |r| <= |s| && r == s[|s| - |r|..]
    ensures forall i :: 0 <= i < |s| - |r| ==> s[i] == c
    ensures |r| > 0 ==> r[0] != c
  {
    if |s| > 0 && s[0] == c then TrimLeft(s[1..], c) else s
  }

  /** rtrim($s, $c): the trailing copies of c removed, and nothing else. */
  function TrimRight(s: string, c: char): (r: string)
    ensures |r| <= |s| && r == s[..|r|]
    ensures forall i :: |r| <= i < |s| ==> s[i] == c
    ensures |r| > 0 ==> r[|r| - 1] != c
  {
    if |s| > 0 && s[|s| - 1] == c then TrimRight(s[..|s| - 1], c) else s
  }

  /** trim($s, $c) for one character. */
  function Trim(s: string, c: char): string
  {
    TrimRight(TrimLeft(s, c), c)
  }

  // ---------------------------------------------------------------------------
  // array_slice

  /** array_slice($s, $offset, $length) on a list, as PHP 7 computes it: an offset
      past the end gives nothing, a negative offset counts from the end (clamped
      at 0), a null length runs to the end, a negative length stops that many
      elements before the end. */
  function ArraySlice<T>(s: seq<T>, offset: int, length: Option<int>): seq<T>
  {
    var n := |s|;
    if offset > n then []
    else
      var o := if offset >= 0 then offset else if n + offset < 0 then 0 else n + offset;
      var l := match length
        case None => n - o
        case Some(len) => if len < 0 then n - o + len else if o + len > n then n - o else len;
      if l <= 0 then [] else s[o..o + l]
  }

  /** Where array_slice starts reading, for an offset not past the end. */
  function SliceStart(n: nat, offset: int): (o: nat)
    ensures offset <= n ==> o <= n
  {
    if offset >= 0 then offset else if n + offset < 0 then 0 else n + offset
  }

  /** array_slice returns a contiguous run of the list starting where the offset
      says: nothing for an offset past the end; otherwise everything to the end
      for a null length, up to `length` elements for a non-negative one, and
      everything but the last -`length` elements for a negative one. */
  lemma ArraySliceIsRun<T>(s: seq<T>, offset: int, length: Option<int>)
    ensures var r := ArraySlice(s, offset, length);
      r == [] || (SliceStart(|s|, offset) + |r| <= |s| && r == s[SliceStart(|s|, offset)..SliceStart(|s|, offset) + |r|])
    ensures length.Some? && length.value >= 0 ==> |ArraySlice(s, offset, length)| <= length.value
    ensures offset > |s| ==> ArraySlice(s, offset, length) == []
    ensures offset <= |s| && length.None? ==> ArraySlice(s, offset, length) == s[SliceStart(|s|, offset)..]
    ensures offset <= |s| && length.Some? && length.value >= 0 ==>
      var o := SliceStart(|s|, offset);
      ArraySlice(s, offset, length) == if o + length.value <= |s| then s[o..o + length.value] else s[o..]
    ensures offset <= |s| && length.Some? && length.value < 0 ==>
      var o := SliceStart(|s|, offset);
      ArraySlice(s, offset, length) == if o < |s| + length.value then s[o..|s| + length.value] else []
  {
  }

  // ---------------------------------------------------------------------------
  // vsprintf: every '%' starts a conversion that takes one argument, except '%%'

  function OrEmpty(a: Option<string>): string { if a.Some? then a.value else "" }

  /** What one conversion prints for its argument: %d the argument's integer
      value, %s the argument itself (null prints as nothing). The text of the
      other conversions (%b, %x, %f, ...) is not modelled; they print nothing
      here. */
  function Convert(c: char, a: Option<string>): string
  {
    if c == 'd' then IntToString(ParseInt(OrEmpty(a)))
    else if c == 's' then OrEmpty(a)
    else ""
  }

  /** vsprintf($f, $args): a '%' followed by any character but '%' is a
      conversion that takes the next argument, %% prints a percent sign, and
      every other character is copied. Too few arguments, or a '%' that ends
      the format, make vsprintf fail (None); extra arguments are ignored. */
  function Fmt(f: string, args: seq<Option<string>>): Option<string>
    decreases |f|
  {
    if |f| == 0 then Some("")
    else if f[0] == '%' then
      if |f| == 1 then None
      else if f[1] == '%' then
        var rest := Fmt(f[2..], args);
        if rest.None? then None else Some("%" + rest.value)
      else if |args| == 0 then None
      else
        var rest := Fmt(f[2..], args[1..]);
        if rest.None? then None else Some(Convert(f[1], args[0]) + rest.value)
    else
      var rest := Fmt(f[1..], args);
      if rest.None? then None else Some([f[0]] + rest.value)
  }

  /** The number of arguments vsprintf consumes for a format. */
  function Conversions(f: string): nat
    decreases |f|
  {
    if |f| == 0 then 0
    else if f[0] == '%' && |f| >= 2 then (if f[1] == '%' then 0 else 1) + Conversions(f[2..])
    else Conversions(f[1..])
  }

  /** No conversion is cut off by the end of the format. */
  predicate Terminated(f: string)
    decreases |f|
  {
    if |f| == 0 then true
    else if f[0] == '%' then |f| >= 2 && Terminated(f[2..])
    else Terminated(f[1..])
  }

  /** A format that does not end in '%' is terminated. */
  lemma {:induction false} TerminatedWithoutFinalPercent(f: string)
    requires |f| == 0 || f[|f| - 1] != '%'
    ensures Terminated(f)
    decreases |f|
  {
    if |f| > 0 {
      if f[0] == '%' {
        TerminatedWithoutFinalPercent(f[2..]);
      } else {
        TerminatedWithoutFinalPercent(f[1..]);
      }
    }
  }

  /** Text without a percent sign is printed as it is and takes no argument. */
  lemma {:induction false} FmtLiteral(s: string)
    requires '%' !in s
    ensures Fmt(s, []) == Some(s) && Conversions(s) == 0
    decreases |s|
  {
    if |s| > 0 {
      FmtLiteral(s[1..]);
      assert [s[0]] + s[1..] == s;
    }
  }

  /** A format that does not end in '%' consumes its arguments apart from what
      follows it. */
  lemma {:induction false} ConversionsAppend(a: string, b: string)
    requires |a| == 0 || a[|a| - 1] != '%'
    ensures Conversions(a + b) == Conversions(a) + Conversions(b)
    decreases |a|
  {
    if |a| == 0 {
      assert a + b == b;
    } else if a[0] == '%' {
      assert (a + b)[0] == a[0] && (a + b)[1] == a[1];
      DropAppend(a, b, 2);
      ConversionsAppend(a[2..], b);
    } else {
      assert (a + b)[0] == a[0];
      DropAppend(a, b, 1);
      ConversionsAppend(a[1..], b);
    }
  }

  /** vsprintf succeeds exactly when no conversion is cut off by the end of the
      format and it has at least as many arguments as the format consumes. */
  lemma {:induction false} FmtExact(f: string, args: seq<Option<string>>)
    ensures Fmt(f, args).Some? <==> Terminated(f) && Conversions(f) <= |args|
    decreases |f|
  {
    if |f| == 0 {
    } else if f[0] == '%' {
      if |f| >= 2 {
        if f[1] == '%' {
          FmtExact(f[2..], args);
        } else if |args| > 0 {
          FmtExact(f[2..], args[1..]);
        }
      }
    } else {
      FmtExact(f[1..], args);
    }
  }

  /** Formatting a concatenation: the first part takes its own arguments and the
      second part the rest, as long as the first part does not end in the '%'
      that would start a conversion across the seam. */
  lemma {:induction false} FmtAppend(a: string, b: string, x: seq<Option<string>>, y: seq<Option<string>>)
    requires |a| == 0 || a[|a| - 1] != '%'
    requires |x| == Conversions(a)
    ensures Fmt(a, x).Some?
    ensures Fmt(a + b, x + y) == if Fmt(b, y).None? then None else Some(Fmt(a, x).value + Fmt(b, y).value)
    decreases |a|, 1
  {
    TerminatedWithoutFinalPercent(a);
    FmtExact(a, x);
    if |a| == 0 {
      assert a + b == b && x + y == y;
      assert Fmt(a, x) == Some([]);
      if Fmt(b, y).Some? {
        assert [] + Fmt(b, y).value == Fmt(b, y).value;
      }
    } else if a[0] == '%' && a[1] != '%' {
      FmtAppendConversion(a, b, x, y);
    } else if a[0] == '%' {
      FmtAppendPercent(a, b, x, y);
    } else {
      FmtAppendChar(a, b, x, y);
    }
  }

  lemma {:induction false} FmtAppendConversion(a: string, b: string, x: seq<Option<string>>, y: seq<Option<string>>)
    requires |a| >= 2 && a[0] == '%' && a[1] != '%' && a[|a| - 1] != '%'
    requires |x| == Conversions(a)
    ensures Fmt(a, x).Some?
    ensures Fmt(a + b, x + y) == if Fmt(b, y).None? then None else Some(Fmt(a, x).value + Fmt(b, y).value)
    decreases |a|, 0
  {
    var f := a + b;
    assert f[0] == a[0] && f[1] == a[1];
    DropAppend(a, b, 2);
    DropAppend(x, y, 1);
    assert (x + y)[0] == x[0];
    FmtAppend(a[2..], b, x[1..], y);
    var h := Convert(a[1], x[0]);
    assert Fmt(a, x) == Some(h + Fmt(a[2..], x[1..]).value);
    var r := Fmt(a[2..] + b, x[1..] + y);
    assert Fmt(f, x + y) == if r.None? then None else Some(h + r.value);
    if Fmt(b, y).Some? {
      AppendAssoc(h, Fmt(a[2..], x[1..]).value, Fmt(b, y).value);
    }
  }

  lemma {:induction false} FmtAppendPercent(a: string, b: string, x: seq<Option<string>>, y: seq<Option<string>>)
    requires |a| >= 2 && a[0] == '%' && a[1] == '%' && a[|a| - 1] != '%'
    requires |x| == Conversions(a)
    ensures Fmt(a, x).Some?
    ensures Fmt(a + b, x + y) == if Fmt(b, y).None? then None else Some(Fmt(a, x).value + Fmt(b, y).value)
    decreases |a|, 0
  {
    var f := a + b;
    assert f[0] == a[0] && f[1] == a[1];
    DropAppend(a, b, 2);
    FmtAppend(a[2..], b, x, y);
    assert Fmt(a, x) == Some("%" + Fmt(a[2..], x).value);
    if Fmt(b, y).Some? {
      AppendAssoc("%", Fmt(a[2..], x).value, Fmt(b, y).value);
    }
  }

  lemma {:induction false} FmtAppendChar(a: string, b: string, x: seq<Option<string>>, y: seq<Option<string>>)
    requires |a| >= 1 && a[0] != '%' && a[|a| - 1] != '%'
    requires |x| == Conversions(a)
    ensures Fmt(a, x).Some?
    ensures Fmt(a + b, x + y) == if Fmt(b, y).None? then None else Some(Fmt(a, x).value + Fmt(b, y).value)
    decreases |a|, 0
  {
    var f := a + b;
    assert f[0] == a[0];
    DropAppend(a, b, 1);
    FmtAppend(a[1..], b, x, y);
    assert Fmt(a, x) == Some([a[0]] + Fmt(a[1..], x).value);
    if Fmt(b, y).Some? {
      AppendAssoc([a[0]], Fmt(a[1..], x).value, Fmt(b, y).value);
    }
  }

  lemma DropAppend<T>(a: seq<T>, b: seq<T>, k: nat)
    requires k <= |a|
    ensures (a + b)[k..] == a[k..] + b
  {
  }

  lemma AppendAssoc<T>(a: seq<T>, b: seq<T>, c: seq<T>)
    ensures a + (b + c) == (a + b) + c
  {
  }
}

/** Per-class metadata of a DbModel subclass, and the pure part of
    DbModel::__call: recognising getItems()/getItemsCount() accessors and
    merging the owner's key into the caller's where clause. */
module Relations {
  import opened Php
  import opened Assoc

  /** DbModel::RELATION_ONE and DbModel::RELATION_MANY. */
  datatype Cardinality = One | Many

  /** One entry of a class's static $relations: ['relation', 'key', 'class']. */
  datatype Relation = Relation(kind: Cardinality, key: string, target: string)

  /** The static configuration of a DbModel subclass: its name (get_called_class),
      $table, $primary, $relations and the default of $read_only. */
  datatype Schema = Schema(name: string, table: string, primary: string,
                           relations: map<string, Relation>, readOnly: bool)

  /** Every class a relation names is known, as PHP needs to resolve `$class::$table`. */
  predicate Configured(schemas: map<string, Schema>)
  {
    forall c :: c in schemas ==>
      forall n :: n in schemas[c].relations ==> schemas[c].relations[n].target in schemas
  }

  predicate IsUpper(c: char) { 'A' <= c <= 'Z' }
  predicate IsLowerLetter(c: char) { 'a' <= c <= 'z' }

  function LowerRun(s: string): (n: nat)
    ensures n <= |s|
    ensures forall i :: 0 <= i < n ==> IsLowerLetter(s[i])
    ensures n < |s| ==> !IsLowerLetter(s[n])
  {
    if |s| == 0 || !IsLowerLetter(s[0]) then 0 else 1 + LowerRun(s[1..])
  }

  /** A word that `[A-Z][a-z]*` matches in full. */
  predicate IsCapitalised(w: string)
  {
    |w| >= 1 && IsUpper(w[0]) && forall i :: 1 <= i < |w| ==> IsLowerLetter(w[i])
  }

  function CountSuffix(isCount: bool): string { if isCount then "Count" else "" }

  /** preg_match('/^get([A-Z][a-z]*)(Count)?$/', $name): the captured word and
      whether the Count group matched. Without the D modifier `$` also matches
      in front of one final newline. */
  function MatchAccessor(name: string): Option<(string, bool)>
  {
    if |name| < 4 || name[..3] != "get" || !IsUpper(name[3]) then None
    else
      var n := LowerRun(name[4..]);
      var word := name[3..4 + n];
      var tail := name[4 + n..];
      if tail == "" || tail == "\n" then Some((word, false))
      else if tail == "Count" || tail == "Count\n" then Some((word, true))
      else None
  }

  /** Only names of the shape get<Word>[Count] match, and the match gives back
      that word and whether Count was there. */
  lemma MatchAccessorSound(name: string)
    requires MatchAccessor(name).Some?
    ensures var (w, c) := MatchAccessor(name).value;
      IsCapitalised(w) &&
      (name == "get" + w + CountSuffix(c) || name == "get" + w + CountSuffix(c) + "\n")
  {
    var n := LowerRun(name[4..]);
    var w := name[3..4 + n];
    assert forall i :: 1 <= i < |w| ==> w[i] == name[4..][i - 1];
    assert name == name[..3] + w + name[4 + n..];
  }

  /** Every name of that shape matches. */
  lemma MatchAccessorComplete(w: string, isCount: bool)
    requires IsCapitalised(w)
    ensures MatchAccessor("get" + w + CountSuffix(isCount)) == Some((w, isCount))
  {
    var name := "get" + w + CountSuffix(isCount);
    var rest := name[4..];
    assert rest == w[1..] + CountSuffix(isCount);
    LowerRunStops(w[1..], CountSuffix(isCount));
    assert name[3..4 + |w| - 1] == w;
    assert name[..3] == "get";
  }

  lemma {:induction false} LowerRunStops(s: string, t: string)
    requires forall i :: 0 <= i < |s| ==> IsLowerLetter(s[i])
    requires |t| == 0 || !IsLowerLetter(t[0])
    ensures LowerRun(s + t) == |s|
  {
    if |s| > 0 {
      assert (s + t)[1..] == s[1..] + t;
      LowerRunStops(s[1..], t);
    } else {
      assert s + t == t;
    }
  }

  /** (string)$this->id, as `{$this->id}` interpolates it. */
  function IdText(id: Option<int>): string
  {
    if id.Some? then IntToString(id.value) else ""
  }

  /** $this->id as a value. */
  function IdValue(id: Option<int>): Value
  {
    if id.Some? then Int(id.value) else Null
  }

  /** array_merge($a, $b) for string keys: $b's pairs are written into $a in
      order. */
  function ArrayMerge(a: seq<(string, Value)>, b: seq<(string, Value)>): seq<(string, Value)>
    decreases |b|
  {
    if |b| == 0 then a else ArrayMerge(Put(a, b[0].0, b[0].1), b[1..])
  }

  /** $a's keys keep their places at the front of the merge. */
  lemma {:induction false} MergeKeepsOrder(a: seq<(string, Value)>, b: seq<(string, Value)>)
    ensures var r := ArrayMerge(a, b); |r| >= |a| && forall i :: 0 <= i < |a| ==> r[i].0 == a[i].0
    decreases |b|
  {
    if |b| > 0 {
      var a' := Put(a, b[0].0, b[0].1);
      MergeKeepsOrder(a', b[1..]);
      PutKeepsOrder(a, b[0].0, b[0].1);
    }
  }

  lemma PutKeepsOrder(a: seq<(string, Value)>, k: string, v: Value)
    ensures var r := Put(a, k, v); |r| >= |a| && forall i :: 0 <= i < |a| ==> r[i].0 == a[i].0
  {
    var r := Put(a, k, v);
    forall i | 0 <= i < |a| ensures r[i].0 == a[i].0 {
      if k in Keys(a) {
        assert Keys(r)[i] == Keys(a)[i];
      } else {
        assert Keys(r)[i] == (Keys(a) + [k])[i] == Keys(a)[i];
      }
    }
  }

  /** A key $b does not have keeps $a's value. */
  lemma {:induction false} MergeKeepsOthers(a: seq<(string, Value)>, b: seq<(string, Value)>, k: string)
    requires k !in Keys(b)
    ensures Get(ArrayMerge(a, b), k) == Get(a, k)
    decreases |b|
  {
    if |b| > 0 {
      assert Keys(b)[0] == b[0].0;
      assert k !in Keys(b[1..]) by {
        forall i | 0 <= i < |b[1..]| ensures Keys(b[1..])[i] != k {
          assert Keys(b[1..])[i] == Keys(b)[i + 1];
        }
      }
      MergeKeepsOthers(Put(a, b[0].0, b[0].1), b[1..], k);
    }
  }

  /** $b wins on every key it has. */
  lemma {:induction false} MergeTakesTheirs(a: seq<(string, Value)>, b: seq<(string, Value)>, k: string)
    requires Distinct(b) && k in Keys(b)
    ensures Get(ArrayMerge(a, b), k) == Get(b, k)
    decreases |b|
  {
    var rest := b[1..];
    assert Keys(b) == [b[0].0] + Keys(rest);
    if k == b[0].0 {
      MergeKeepsOthers(Put(a, k, b[0].1), rest, k);
    } else {
      MergeTakesTheirs(Put(a, b[0].0, b[0].1), rest, k);
    }
  }

  /** The where clause of getItems($where) on an owner with id $id, for a relation
      keyed on $key: null becomes [$key => $id]; an array gets $key merged in front
      (the caller's own value for $key wins); anything else is taken as SQL text
      and gets "`$key` = $id AND " put in front of it. */
  function MergeWhere(key: string, id: Option<int>, where: Value): (r: Value)
    ensures where.Null? ==> r == Arr([(key, IdValue(id))])
    ensures where.Arr? ==> r.Arr? && |r.entries| >= 1 && r.entries[0].0 == key
    ensures where.Arr? && Distinct(where.entries) ==>
      forall k :: Get(r.entries, k) == if k in Keys(where.entries) then Get(where.entries, k)
                                       else if k == key then Some(IdValue(id)) else None
    ensures !where.Null? && !where.Arr? ==>
      r.Str? && |r.s| >= |key| + 2 + |StringOf(where)| &&
      r.s[..|key| + 2] == "`" + key + "`" && r.s[|r.s| - |StringOf(where)|..] == StringOf(where)
  {
    match where
    case Null => Arr([(key, IdValue(id))])
    case Arr(w) =>
      MergeFront(key, IdValue(id), w);
      Arr(ArrayMerge([(key, IdValue(id))], w))
    case _ =>
      var s := "`" + key + "` = " + IdText(id) + " AND " + StringOf(where);
      PrefixedText(key, IdText(id), StringOf(where));
      Str(s)
  }

  /** Merging a where array behind [key => v]: key comes first, and each key
      maps to the array's value if it has one, else key to v. */
  lemma MergeFront(key: string, v: Value, w: seq<(string, Value)>)
    ensures var m := ArrayMerge([(key, v)], w);
      |m| >= 1 && m[0].0 == key &&
      (Distinct(w) ==> forall k :: Get(m, k) == if k in Keys(w) then Get(w, k) else if k == key then Some(v) else None)
  {
    var m := ArrayMerge([(key, v)], w);
    MergeKeepsOrder([(key, v)], w);
    if Distinct(w) {
      forall k ensures Get(m, k) == if k in Keys(w) then Get(w, k) else if k == key then Some(v) else None {
        if k in Keys(w) {
          MergeTakesTheirs([(key, v)], w, k);
        } else {
          MergeKeepsOthers([(key, v)], w, k);
        }
      }
    }
  }

  /** The text where clause keeps the key in back-quotes at its head and the
      caller's text at its tail. */
  lemma PrefixedText(key: string, idText: string, text: string)
    ensures var s := "`" + key + "` = " + idText + " AND " + text;
      |s| >= |key| + 2 + |text| && s[..|key| + 2] == "`" + key + "`" && s[|s| - |text|..] == text
  {
    var s := "`" + key + "` = " + idText + " AND " + text;
    assert s[..|key| + 2] == "`" + key + "`";
    assert s[|s| - |text|..] == text;
  }

  /** What a relation accessor asks the database for: the row count, or the
      primary keys of the related rows. */
  datatype RelationCall =
    | CountCall(table: string, where: Value)
    | ListCall(table: string, primary: string, where: Value, order: Value, limit: Value)

  function Arg(args: seq<Value>, i: nat): Value { if i < |args| then args[i] else Null }

  /** DbModel::__call up to the query: only a get<Word>[Count] name naming a
      one-to-many relation (keyed by the lower-cased word) is answered; more than
      three arguments, or more than one for a Count call, give null. The `break`
      that stands after the count query in the source is taken as absent. */
  function PlanRelationCall(self: Schema, schemas: map<string, Schema>, id: Option<int>,
                            name: string, args: seq<Value>): (r: Option<RelationCall>)
    requires self.name in schemas && schemas[self.name] == self && Configured(schemas)
    ensures r.Some? ==> MatchAccessor(name).Some?
    ensures r.Some? ==> var rel := ToLower(MatchAccessor(name).value.0);
      rel in self.relations && self.relations[rel].kind == Many
    ensures |args| > 3 ==> r.None?
    ensures r.Some? ==> (r.value.CountCall? <==> MatchAccessor(name).value.1)
    ensures r.Some? && r.value.CountCall? ==> |args| <= 1
    ensures MatchAccessor(name).Some? && |args| <= 3 ==>
      var (word, isCount) := MatchAccessor(name).value;
      ToLower(word) in self.relations && self.relations[ToLower(word)].kind == Many && (isCount ==> |args| <= 1) ==>
      r.Some?
    ensures r.Some? ==>
      var rel := self.relations[ToLower(MatchAccessor(name).value.0)];
      rel.target in schemas &&
      r.value.table == schemas[rel.target].table && r.value.where == MergeWhere(rel.key, id, Arg(args, 0)) &&
      (r.value.ListCall? ==>
        r.value.primary == schemas[rel.target].primary && r.value.order == Arg(args, 1) && r.value.limit == Arg(args, 2))
  {
    match MatchAccessor(name)
    case None => None
    case Some((word, isCount)) =>
      var rel := ToLower(word);
      if rel !in self.relations || self.relations[rel].kind != Many then None
      else if |args| > 3 then None
      else
        var relation := self.relations[rel];
        assert relation.target in schemas;
        var target := schemas[relation.target];
        var where := MergeWhere(relation.key, id, Arg(args, 0));
        if isCount then
          if |args| > 1 then None else Some(CountCall(target.table, where))
        else
          Some(ListCall(target.table, target.primary, where, Arg(args, 1), Arg(args, 2)))
  }
}

/** DbModel::search: the id list of a search is read from the cache when the
    search's key is there, and otherwise from the database, after which it is
    pushed into the cache; either way it becomes a ModelList. Also the list
    that a one-to-many relation accessor builds through the identity map.
    serialize() of the predicate and order is not modelled: their serialized
    texts are parameters, as are the cache (a map of Redis lists) and the
    query's result (null when the query fails). */
module Search {
  import opened Php
  import opened Assoc
  import opened Relations
  import opened Models
  import opened ModelLists
  import opened Cache

  /** The cache key of a search. */
  function SearchKey(className: string, whereText: string, orderText: string): string
  {
    ToLower(className) + ":search:[" + whereText + "]:[" + orderText + "]"
  }

  /** The expiry set on a search's cached list, in seconds. */
  const SearchTtl := 900

  /** The (offset, limit) search reads from its limit clause, as written: the
      clause is exploded into one variable and popped from a misspelt one, whose
      pops give null, so any non-empty clause reads as offset 0, limit 0. */
  function ParseLimit(limitClause: Value): (r: (int, Option<int>))
    ensures Empty(limitClause) ==> r == (0, None)
    ensures !Empty(limitClause) ==> r == (0, Some(0))
  {
    if Empty(limitClause) then (0, None) else (0, Some(0))
  }

  /** The (offset, limit) as evidently intended: the last comma-separated part
      is the limit and the one before it, if any, the offset. */
  function ParseLimitIntended(limitClause: Value): (r: (int, Option<int>))
  {
    if Empty(limitClause) then (0, None)
    else
      var parts := Split(StringOf(limitClause), ',');
      (if |parts| >= 2 then ParseInt(parts[|parts| - 2]) else 0, Some(ParseInt(parts[|parts| - 1])))
  }

  lemma NoCommaInInt(i: int)
    ensures ',' !in IntToString(i)
  {
    if i < 0 {
      assert IntToString(i) == "-" + NatToString(-i);
    }
  }

  /** Only zero is written "0". */
  lemma ZeroText(i: int)
    ensures IntToString(i) != ""
    ensures IntToString(i) == "0" ==> i == 0
  {
    if i < 0 {
      assert IntToString(i)[0] == '-';
    } else if i >= 10 {
      assert |NatToString(i)| == |NatToString(i / 10)| + 1;
    } else {
      assert IntToString(i) == [DigitChar(i)];
    }
  }

  /** The intended reading of "offset,limit". */
  lemma ParseLimitPair(offset: int, limit: int)
    ensures ParseLimitIntended(Str(IntToString(offset) + "," + IntToString(limit))) == (offset, Some(limit))
  {
    var o, l := IntToString(offset), IntToString(limit);
    NoCommaInInt(offset);
    NoCommaInInt(limit);
    SplitPair(o, l);
    ParseIntRoundTrip(offset);
    ParseIntRoundTrip(limit);
  }

  /** Two comma-free texts joined by a comma split back into the two, and the
      joined text is not empty in PHP's sense. */
  lemma SplitPair(o: string, l: string)
    requires ',' !in o && ',' !in l
    ensures Split(o + "," + l, ',') == [o, l]
    ensures !Empty(Str(o + "," + l))
  {
    SplitConcat(o, ',', l);
    SplitNoDelimiter(l, ',');
    assert o + "," + l == o + [','] + l;
    assert |o + "," + l| >= 1 && (o + "," + l)[|o|] == ',';
  }

  /** The intended reading of a lone non-zero "limit". */
  lemma ParseLimitSingle(limit: int)
    requires limit != 0
    ensures ParseLimitIntended(Str(IntToString(limit))) == (0, Some(limit))
  {
    NoCommaInInt(limit);
    SplitNoDelimiter(IntToString(limit), ',');
    ZeroText(limit);
    ParseIntRoundTrip(limit);
  }

  /** As written, "0,10" reads as offset 0 and limit 0, where the intended
      reading is offset 0, limit 10. */
  lemma LimitClauseIgnored()
    ensures ParseLimit(Str("0,10")) == (0, Some(0))
    ensures ParseLimitIntended(Str("0,10")) == (0, Some(10))
  {
    assert IntToString(0) == "0" && IntToString(10) == "10";
    assert IntToString(0) + "," + IntToString(10) == "0,10";
    ParseLimitPair(0, 10);
  }

  /** The data array as lPush receives it: keys 0, 1, 2, ... */
  function Indexed(data: seq<Value>): (r: seq<(string, Value)>)
    ensures |r| == |data| && forall i :: 0 <= i < |data| ==> r[i].1 == data[i]
  {
    seq(|data|, i requires 0 <= i < |data| => (IntToString(i), data[i]))
  }

  /** The values lPush stores for the data: their string forms, or one empty
      string when there are none. */
  lemma PushedData(data: seq<Value>)
    ensures PushValues(Arr(Indexed(data))) == if data == [] then [""] else Texts(data)
  {
  }

  /** The values read back from the cache, as strings. */
  function Strs(list: seq<string>): (r: seq<Value>)
    ensures |r| == |list| && forall i :: 0 <= i < |list| ==> r[i] == Str(list[i])
  {
    seq(|list|, i requires 0 <= i < |list| => Str(list[i]))
  }

  lemma TextsStrs(list: seq<string>)
    ensures Texts(Strs(list)) == list
  {
  }

  /** The ids a search returns, as written, given the cache and the query's
      first column (None when the query fails); and the cache after it. */
  function Searched(key: string, limitClause: Value, cache: map<string, seq<string>>, rows: Option<seq<Value>>)
    : (r: (Option<seq<Value>>, map<string, seq<string>>))
    ensures key in cache ==> r.1 == cache
    ensures key !in cache && rows.None? ==> r == (None, cache)
  {
    var (offset, limit) := ParseLimit(limitClause);
    if key in cache then (Some(Strs(LSlice(cache[key], offset, limit))), cache)
    else if rows.None? then (None, cache)
    else (Some(ArraySlice(rows.value, offset, limit)), Push(cache, LPush, key, PushValues(Arr(Indexed(rows.value)))))
  }

  /** search($where, $order, $limitClause) for the class of `schema`. */
  method DoSearch(schema: Schema, whereText: string, orderText: string, limitClause: Value,
                  cache: map<string, seq<string>>, rows: Option<seq<Value>>)
    returns (list: ModelList?, newCache: map<string, seq<string>>)
    ensures var r := Searched(SearchKey(schema.name, whereText, orderText), limitClause, cache, rows);
      newCache == r.1 && (list == null <==> r.0.None?) &&
      (list != null ==> fresh(list) && list.schema == schema && list.ids == Dedup(Texts(r.0.value)) && list.Valid())
  {
    var key := ToLower(schema.name) + ":search:[" + whereText + "]:[" + orderText + "]";
    var offset: int;
    var limit: Option<int>;
    if Empty(limitClause) {
      limit := None;
      offset := 0;
    } else {
      limit := Some(0);
      offset := 0;
    }
    if key in cache {
      newCache := cache;
      list := new ModelList(schema, Strs(LSlice(cache[key], offset, limit)));
      return;
    }
    if rows.None? {
      return null, cache;
    }
    var data: seq<Value> := [];
    var result := rows.value;
    var n := 0;
    while n < |result|
      invariant 0 <= n <= |result| && data == result[..n]
    {
      data := data + [result[n]];
      n := n + 1;
    }
    assert data == result;
    newCache := Push(cache, LPush, key, PushValues(Arr(Indexed(data))));
    list := new ModelList(schema, ArraySlice(data, offset, limit));
  }

  // ---------------------------------------------------------------------------
  // Properties of search

  /** With an empty limit clause a search returns the whole id list: from the
      database when it is not cached, else the whole cached list. */
  lemma EmptyLimitReadsAll(key: string, limitClause: Value, cache: map<string, seq<string>>, rows: Option<seq<Value>>)
    requires Empty(limitClause)
    ensures key in cache ==> Searched(key, limitClause, cache, rows).0 == Some(Strs(cache[key]))
    ensures key !in cache && rows.Some? ==> Searched(key, limitClause, cache, rows).0 == rows
  {
    if key in cache {
      LSliceToEnd(cache[key], 0);
    } else if rows.Some? {
      assert rows.value[0..|rows.value|] == rows.value;
    }
  }

  /** As written, any non-empty limit clause gives an empty result. */
  lemma LimitedSearchIsEmpty(key: string, limitClause: Value, cache: map<string, seq<string>>, rows: Option<seq<Value>>)
    requires !Empty(limitClause)
    requires key in cache || rows.Some?
    ensures Searched(key, limitClause, cache, rows).0 == Some([])
  {
  }

  /** A search that misses the cache leaves the list lPush builds from its ids. */
  lemma MissPushes(key: string, limitClause: Value, cache: map<string, seq<string>>, rows: seq<Value>)
    requires key !in cache
    ensures Searched(key, limitClause, cache, Some(rows)).1 ==
      cache[key := Reverse(if rows == [] then [""] else Texts(rows))]
  {
    PushedData(rows);
    assert Reverse(if rows == [] then [""] else Texts(rows)) + [] == Reverse(if rows == [] then [""] else Texts(rows));
  }

  /** A search that hits the cache with no limit reads the whole stored list. */
  lemma HitReadsList(key: string, cache: map<string, seq<string>>)
    requires key in cache
    ensures Searched(key, Null, cache, None).0 == Some(Strs(cache[key]))
  {
    LSliceToEnd(cache[key], 0);
  }

  /** A search that misses the cache stores its ids last first, so a search
      that hits the cache reads them in reverse. */
  lemma CachedInReverse(key: string, limitClause: Value, cache: map<string, seq<string>>, rows: seq<Value>)
    requires key !in cache && rows != []
    ensures var c := Searched(key, limitClause, cache, Some(rows)).1;
      key in c && Reverse(c[key]) == Texts(rows) &&
      Searched(key, Null, c, None).0 == Some(Strs(Reverse(Texts(rows))))
  {
    MissPushes(key, limitClause, cache, rows);
    var c := cache[key := Reverse(Texts(rows))];
    ReverseReverse(Texts(rows));
    HitReadsList(key, c);
  }

  /** As written, ids 1 and 2 come back from the cache as 2 and 1. */
  lemma CachedOrderFlips(key: string, cache: map<string, seq<string>>)
    requires key !in cache
    ensures var c := Searched(key, Null, cache, Some([Int(1), Int(2)])).1;
      Searched(key, Null, cache, Some([Int(1), Int(2)])).0 == Some([Int(1), Int(2)]) &&
      Searched(key, Null, c, None).0 == Some([Str("2"), Str("1")])
  {
    var rows := [Int(1), Int(2)];
    EmptyLimitReadsAll(key, Null, cache, Some(rows));
    CachedInReverse(key, Null, cache, rows);
    OneTwoReversed();
  }

  lemma OneTwoReversed()
    ensures Strs(Reverse(Texts([Int(1), Int(2)]))) == [Str("2"), Str("1")]
  {
    assert IntToString(1) == "1" && IntToString(2) == "2";
    assert Texts([Int(1), Int(2)]) == ["1", "2"];
    assert Reverse(["1", "2"]) == ["2", "1"] by {
      assert ["1", "2"][1..] == ["2"];
    }
    assert Strs(["2", "1"]) == [Str("2"), Str("1")];
  }

  /** As written, a search with no results caches one empty string, so the next
      such search returns a list holding the id "". */
  lemma EmptyResultCachesBlank(key: string, cache: map<string, seq<string>>)
    requires key !in cache
    ensures var c := Searched(key, Null, cache, Some([])).1;
      Searched(key, Null, cache, Some([])).0 == Some([]) &&
      Searched(key, Null, c, None).0 == Some([Str("")])
  {
    MissPushes(key, Null, cache, []);
    var c := cache[key := Reverse([""])];
    assert Reverse([""]) == [""] by {
      assert [""][1..] == [];
    }
    HitReadsList(key, c);
    assert Strs([""]) == [Str("")];
  }

  /** search as evidently intended: the limit clause is read, and the ids are
      cached in their own order, an empty result not at all. */
  function SearchedIntended(key: string, limitClause: Value, cache: map<string, seq<string>>, rows: Option<seq<Value>>)
    : (r: (Option<seq<Value>>, map<string, seq<string>>))
  {
    var (offset, limit) := ParseLimitIntended(limitClause);
    if key in cache then (Some(Strs(LSliceIntended(cache[key], offset, limit))), cache)
    else if rows.None? then (None, cache)
    else if rows.value == [] then (Some([]), cache)
    else (Some(ArraySlice(rows.value, offset, limit)), Push(cache, RPush, key, Texts(rows.value)))
  }

  /** As intended, a cached search gives the ids the database gave, in the same
      order and under the same limit. */
  lemma IntendedCacheAgrees(key: string, limitClause: Value, cache: map<string, seq<string>>, rows: seq<Value>)
    requires key !in cache
    ensures var (fromDb, c) := SearchedIntended(key, limitClause, cache, Some(rows));
      fromDb.Some? &&
      (rows == [] ==> key !in c) &&
      (rows != [] ==> SearchedIntended(key, limitClause, c, None).0 == Some(Strs(Texts(fromDb.value))))
  {
    var (offset, limit) := ParseLimitIntended(limitClause);
    if rows != [] {
      var r := SearchedIntended(key, limitClause, cache, Some(rows));
      assert r.0 == Some(ArraySlice(rows, offset, limit));
      var c := r.1;
      assert c == cache[key := [] + Texts(rows)];
      assert [] + Texts(rows) == Texts(rows);
      assert SearchedIntended(key, limitClause, c, None).0 == Some(Strs(LSliceIntended(Texts(rows), offset, limit)));
      TextsSlice(rows, offset, limit);
    }
  }

  // ---------------------------------------------------------------------------
  // A one-to-many relation's list

  /** The string forms of a list of instances: their ids. */
  function IdTexts(es: seq<Entity>): (r: seq<Value>)
    reads set i | 0 <= i < |es| :: es[i]
    ensures |r| == |es|
  {
    seq(|es|, i reads set i | 0 <= i < |es| :: es[i] requires 0 <= i < |es| => Obj(es[i].id))
  }

  /** The list a get<Items>() accessor returns: the instance of each returned
      key through factory(), then a ModelList over them. */
  method RelationList(reg: Registry, target: Schema, keys: seq<Value>) returns (list: ModelList, response: seq<Entity>)
    requires Distinct(reg.Slots(target.name))
    modifies reg
    ensures Distinct(reg.Slots(target.name))
    ensures |response| == |keys|
    ensures fresh(list) && list.Valid() && list.schema == target && list.ids == Dedup(Texts(IdTexts(response)))
  {
    response := [];
    for i := 0 to |keys|
      invariant |response| == i
      invariant Distinct(reg.Slots(target.name))
    {
      var e := reg.Factory(target, Int(IntCast(keys[i])));
      response := response + [e];
    }
    var objects := IdTexts(response);
    list := new ModelList(target, objects);
  }
}

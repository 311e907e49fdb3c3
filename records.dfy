/** The state of a DbModel instance as a value, and what each of its operations
    does to that state. The Entity class in module Models holds the same state in
    fields; its methods are specified by these functions. The cache and the
    table a record is read from are parameters; what an operation writes to
    them is returned as a list of effects. */
module Records {
  import opened Php
  import opened Assoc
  import opened Relations

  /** A database row or a record's field map: column name to value, in order. */
  type Row = seq<(string, Value)>

  /** The fields of a DbModel instance: $id, $data, $old_data, $loaded, $new. */
  datatype Snapshot = Snapshot(id: Option<int>, data: Row, oldData: Row, loaded: bool, isNew: bool)

  /** What every reachable instance satisfies: both field maps are PHP arrays,
      and only a new record can be without an id. */
  predicate WellFormed(s: Snapshot)
  {
    Distinct(s.data) && Distinct(s.oldData) && (s.isNew || s.id.Some?)
  }

  /** Every row a store or cache holds is a PHP array. */
  predicate RowsDistinct<K>(m: map<K, Row>)
  {
    forall k :: k in m ==> Distinct(m[k])
  }

  /** Seconds a cached record lives after load (core/dbmodel.php:219). */
  const LoadTtl: int := 7200
  /** Seconds the record commit writes to the cache lives (core/dbmodel.php:154). */
  const CommitTtl: int := 1

  /** An effect on the Redis cache: SET with an optional TTL, or EXPIRE. */
  datatype CacheOp =
    | CacheSet(key: string, row: Row, ttl: Option<int>)
    | CacheExpire(key: string, seconds: int)

  /** The content of the cache after an effect. Expiry is not modelled, so an
      EXPIRE leaves the content as it is. */
  function ApplyCache(cache: map<string, Row>, op: CacheOp): map<string, Row>
  {
    match op
    case CacheSet(k, row, _) => cache[k := row]
    case CacheExpire(_, _) => cache
  }

  function ApplyCacheAll(cache: map<string, Row>, ops: seq<CacheOp>): map<string, Row>
    decreases |ops|
  {
    if |ops| == 0 then cache else ApplyCacheAll(ApplyCache(cache, ops[0]), ops[1..])
  }

  /** `strtolower(<class>) . ":data:<id>"`: where load looks for a cached record. */
  function LoadKey(schema: Schema, id: Option<int>): string
  {
    ToLower(schema.name) + ":data:" + IdText(id)
  }

  /** `"object:<class>:<id>"`: where commit writes the record. */
  function CommitKey(schema: Schema, id: Option<int>): string
  {
    "object:" + schema.name + ":" + IdText(id)
  }

  /** isModified(): the fields differ from the baseline (`!==` on arrays compares
      keys, order and values). */
  predicate Modified(s: Snapshot) { s.data != s.oldData }

  // ---------------------------------------------------------------------------
  // Construction

  /** new Class($arg): a row is taken as loaded data with the id read from its
      primary-key column; null makes a new record; anything else is an id, cast
      to int, to be loaded on demand. */
  function Constructed(schema: Schema, arg: Value): (s: Snapshot)
    ensures (arg.Arr? ==> Distinct(arg.entries)) ==> WellFormed(s)
    ensures !Modified(s)
    ensures s.isNew <==> arg.Null?
    ensures s.loaded <==> arg.Arr?
    ensures arg.Arr? ==> s.data == arg.entries && s.id == Some(IntCast(GetOrNull(arg.entries, schema.primary)))
    ensures !arg.Arr? ==> s.data == []
    ensures !arg.Null? && !arg.Arr? ==> s.id == Some(IntCast(arg))
    ensures arg.Null? ==> s.id.None?
  {
    match arg
    case Arr(row) => Snapshot(Some(IntCast(GetOrNull(row, schema.primary))), row, row, true, false)
    case Null => Snapshot(None, [], [], false, true)
    case _ => Snapshot(Some(IntCast(arg)), [], [], false, false)
  }

  // ---------------------------------------------------------------------------
  // load

  datatype LoadOutcome = Skipped | Hit | Fetched | NotFound

  /** The state after load(), how the data was found, and the cache effects. */
  datatype Loaded = Loaded(state: Snapshot, outcome: LoadOutcome, writes: seq<CacheOp>)

  /** load(): nothing to do for a loaded or new record; otherwise the cache is
      read first and the table second, and a row from the table is written back
      to the cache with a TTL. No row anywhere is the `die` of the source. */
  function LoadStep(s: Snapshot, schema: Schema, cache: map<string, Row>, table: map<int, Row>): (r: Loaded)
    ensures s.loaded || s.isNew ==> r == Loaded(s, Skipped, [])
    ensures r.outcome == Skipped <==> s.loaded || s.isNew
    ensures !s.loaded && !s.isNew && LoadKey(schema, s.id) in cache ==> r.outcome == Hit
    ensures !s.loaded && !s.isNew && LoadKey(schema, s.id) !in cache && s.id.Some? && s.id.value in table ==>
      r.outcome == Fetched
    ensures r.outcome == NotFound <==>
      !s.loaded && !s.isNew && LoadKey(schema, s.id) !in cache && (s.id.None? || s.id.value !in table)
    ensures r.outcome == NotFound ==> r.state == s && r.writes == []
    ensures r.outcome != NotFound ==> r.state.loaded || r.state.isNew
    ensures r.outcome == Hit ==>
      LoadKey(schema, s.id) in cache && r.state.data == cache[LoadKey(schema, s.id)] && r.writes == []
    ensures r.outcome == Fetched ==>
      s.id.Some? && s.id.value in table && r.state.data == table[s.id.value] &&
      r.writes == [CacheSet(LoadKey(schema, s.id), r.state.data, None), CacheExpire(LoadKey(schema, s.id), LoadTtl)]
    ensures r.outcome in {Hit, Fetched} ==> !Modified(r.state)
    ensures r.state.id == s.id && r.state.isNew == s.isNew
    ensures WellFormed(s) && RowsDistinct(cache) && RowsDistinct(table) ==> WellFormed(r.state)
  {
    if s.loaded || s.isNew then Loaded(s, Skipped, [])
    else
      var key := LoadKey(schema, s.id);
      if key in cache then
        Loaded(s.(data := cache[key], oldData := cache[key], loaded := true), Hit, [])
      else if s.id.Some? && s.id.value in table then
        var row := table[s.id.value];
        Loaded(s.(data := row, oldData := row, loaded := true), Fetched,
               [CacheSet(key, row, None), CacheExpire(key, LoadTtl)])
      else
        Loaded(s, NotFound, [])
  }

  /** A second load() does nothing. */
  lemma LoadIdempotent(s: Snapshot, schema: Schema, cache: map<string, Row>, table: map<int, Row>,
                       cache': map<string, Row>, table': map<int, Row>)
    requires LoadStep(s, schema, cache, table).outcome != NotFound
    ensures var t := LoadStep(s, schema, cache, table).state;
      LoadStep(t, schema, cache', table') == Loaded(t, Skipped, [])
  {
  }

  /** Cache first: once a record was fetched from the table and its cache effects
      applied, another instance with the same id loads the same row from the
      cache, whatever the table holds by then. */
  lemma LoadThenCacheHit(s: Snapshot, schema: Schema, cache: map<string, Row>, table: map<int, Row>,
                         table': map<int, Row>)
    requires LoadStep(s, schema, cache, table).outcome == Fetched
    ensures var l := LoadStep(s, schema, cache, table);
      var other := Snapshot(s.id, [], [], false, false);
      var l' := LoadStep(other, schema, ApplyCacheAll(cache, l.writes), table');
      l'.outcome == Hit && l'.state.data == l.state.data
  {
    var l := LoadStep(s, schema, cache, table);
    var key := LoadKey(schema, s.id);
    var c1 := ApplyCache(cache, l.writes[0]);
    assert c1 == cache[key := l.state.data];
    assert ApplyCacheAll(cache, l.writes) == ApplyCacheAll(c1, l.writes[1..]);
    assert ApplyCacheAll(c1, l.writes[1..]) == ApplyCacheAll(c1, l.writes[1..][1..]);
    assert l.writes[1..][1..] == [];
  }

  // ---------------------------------------------------------------------------
  // __set, __unset, reset, __get, __isset

  /** The state after a mutator, whether the process died in load(), and the
      cache effects of that load. */
  datatype Stepped = Stepped(state: Snapshot, died: bool, writes: seq<CacheOp>)

  /** __set($name, $value): ignored on a read-only record; otherwise the record
      is loaded and the field written. An array value also sets the baseline of
      that field to null, so the field always counts as changed. */
  function SetStep(s: Snapshot, schema: Schema, cache: map<string, Row>, table: map<int, Row>,
                   name: string, value: Value): (r: Stepped)
    ensures schema.readOnly ==> r == Stepped(s, false, [])
    ensures r.died <==> !schema.readOnly && LoadStep(s, schema, cache, table).outcome == NotFound
    ensures r.died ==> r.state == s
    ensures WellFormed(s) && RowsDistinct(cache) && RowsDistinct(table) ==> WellFormed(r.state)
  {
    if schema.readOnly then Stepped(s, false, [])
    else
      var l := LoadStep(s, schema, cache, table);
      if l.outcome == NotFound then Stepped(s, true, [])
      else
        var t := l.state;
        var oldData := if value.Arr? then Put(t.oldData, name, Null) else t.oldData;
        assert WellFormed(t) ==> Distinct(Put(t.data, name, value)) && Distinct(Put(t.oldData, name, Null)) by {
          if WellFormed(t) {
            PutDistinct(t.data, name, value);
            PutDistinct(t.oldData, name, Null);
          }
        }
        Stepped(t.(data := Put(t.data, name, value), oldData := oldData), false, l.writes)
  }

  /** After __set on a writable record that loaded, the field holds the value
      and every other field is as load() left it; the baseline changes only for
      an array value, whose baseline becomes null. */
  lemma SetStepFields(s: Snapshot, schema: Schema, cache: map<string, Row>, table: map<int, Row>,
                      name: string, value: Value, k: string)
    requires !schema.readOnly && LoadStep(s, schema, cache, table).outcome != NotFound
    ensures var r := SetStep(s, schema, cache, table, name, value);
      var t := LoadStep(s, schema, cache, table).state;
      && !r.died
      && Get(r.state.data, k) == (if k == name then Some(value) else Get(t.data, k))
      && Get(r.state.oldData, k) == (if k == name && value.Arr? then Some(Null) else Get(t.oldData, k))
  {
  }

  /** Writing a value that differs from the field's baseline makes the record
      modified; so does writing any array. */
  lemma SetMarksModified(s: Snapshot, schema: Schema, cache: map<string, Row>, table: map<int, Row>,
                         name: string, value: Value)
    requires !schema.readOnly && LoadStep(s, schema, cache, table).outcome != NotFound
    requires value.Arr? || Get(LoadStep(s, schema, cache, table).state.oldData, name) != Some(value)
    ensures Modified(SetStep(s, schema, cache, table, name, value).state)
  {
    var r := SetStep(s, schema, cache, table, name, value).state;
    assert Get(r.data, name) != Get(r.oldData, name);
  }

  /** unset($name): ignored on a read-only record; otherwise the field is removed
      and, when `$name` loosely equals one of the baseline's VALUES, put back as
      null at the end. */
  function UnsetStep(s: Snapshot, schema: Schema, cache: map<string, Row>, table: map<int, Row>,
                     name: string): (r: Stepped)
    ensures schema.readOnly ==> r == Stepped(s, false, [])
    ensures r.died <==> !schema.readOnly && LoadStep(s, schema, cache, table).outcome == NotFound
    ensures r.died ==> r.state == s
    ensures !schema.readOnly && !r.died ==>
      var t := LoadStep(s, schema, cache, table).state;
      && (Get(r.state.data, name) == if InArrayLoose(name, Values(t.oldData)) then Some(Null) else None)
      && (forall k :: k != name ==> Get(r.state.data, k) == Get(t.data, k))
      && r.state.oldData == t.oldData
    ensures WellFormed(s) && RowsDistinct(cache) && RowsDistinct(table) ==> WellFormed(r.state)
  {
    if schema.readOnly then Stepped(s, false, [])
    else
      var l := LoadStep(s, schema, cache, table);
      if l.outcome == NotFound then Stepped(s, true, [])
      else
        var t := l.state;
        var removed := Delete(t.data, name);
        var data := if InArrayLoose(name, Values(t.oldData)) then Put(removed, name, Null) else removed;
        assert WellFormed(t) ==> Distinct(data) by {
          if WellFormed(t) {
            UnsetDistinct(t.data, name, InArrayLoose(name, Values(t.oldData)));
          }
        }
        Stepped(t.(data := data), false, l.writes)
  }

  /** Removing a field, and perhaps putting a null back, keeps the fields
      distinct. */
  lemma UnsetDistinct(data: Row, name: string, putNull: bool)
    requires Distinct(data)
    ensures Distinct(if putNull then Put(Delete(data, name), name, Null) else Delete(data, name))
  {
    DeleteDistinct(data, name);
    PutDistinct(Delete(data, name), name, Null);
  }

  /** The null that unset leaves behind depends on the baseline's values, not on
      its keys: a field holding "x" in the baseline vanishes entirely. */
  lemma UnsetChecksValues(schema: Schema)
    requires !schema.readOnly
    ensures var s := Snapshot(Some(1), [("title", Str("x"))], [("title", Str("x"))], true, false);
      var r := UnsetStep(s, schema, map[], map[], "title");
      !r.died && Get(r.state.data, "title").None? && "title" in Keys(s.oldData)
  {
    var s := Snapshot(Some(1), [("title", Str("x"))], [("title", Str("x"))], true, false);
    assert Values(s.oldData) == [Str("x")];
    assert !IsNumeric("x") by {
      assert SkipSpace("x") == "x";
      assert DigitRun("x") == 0;
    }
    assert !LooseEqualsString("title", Str("x"));
    assert !InArrayLoose("title", Values(s.oldData));
    var r := UnsetStep(s, schema, map[], map[], "title");
    assert LoadStep(s, schema, map[], map[]).state == s;
    assert Get(r.state.data, "title") == None;
  }

  /** setData($values): __set for each pair in order (nothing at all on a
      read-only record). Only the first write can load, hence only it can die. */
  function SetAllStep(s: Snapshot, schema: Schema, cache: map<string, Row>, table: map<int, Row>,
                      values: Row): Stepped
    decreases |values|
  {
    if schema.readOnly || |values| == 0 then Stepped(s, false, [])
    else
      var p := SetAllStep(s, schema, cache, table, values[..|values| - 1]);
      if p.died then p
      else
        var last := values[|values| - 1];
        var q := SetStep(p.state, schema, cache, table, last.0, last.1);
        Stepped(q.state, q.died, p.writes + q.writes)
  }

  /** setData does nothing on a read-only record or with no values; otherwise
      it dies exactly when the record cannot be loaded, and then changes nothing;
      when it lives, the record ends loaded (or new). */
  lemma {:induction false} SetAllOutcome(s: Snapshot, schema: Schema, cache: map<string, Row>,
                                         table: map<int, Row>, values: Row)
    ensures var r := SetAllStep(s, schema, cache, table, values);
      && (schema.readOnly || |values| == 0 ==> r == Stepped(s, false, []))
      && (r.died <==> !schema.readOnly && |values| > 0 && LoadStep(s, schema, cache, table).outcome == NotFound)
      && (r.died ==> r.state == s)
      && (!r.died && !schema.readOnly && |values| > 0 ==> r.state.loaded || r.state.isNew)
    decreases |values|
  {
    if !schema.readOnly && |values| > 0 {
      SetAllOutcome(s, schema, cache, table, values[..|values| - 1]);
    }
  }

  /** setData's state after one more value: the next __set applied to the
      state the earlier values left, unless one of them already died. */
  lemma SetAllSnoc(s: Snapshot, schema: Schema, cache: map<string, Row>, table: map<int, Row>, values: Row, i: nat)
    requires !schema.readOnly && i < |values|
    requires !SetAllStep(s, schema, cache, table, values[..i]).died
    ensures var p := SetAllStep(s, schema, cache, table, values[..i]);
      var q := SetStep(p.state, schema, cache, table, values[i].0, values[i].1);
      SetAllStep(s, schema, cache, table, values[..i + 1]) == Stepped(q.state, q.died, p.writes + q.writes)
  {
    var prefix := values[..i + 1];
    assert prefix[..i] == values[..i] && prefix[i] == values[i];
  }

  /** One turn of setData's loop: a `__set` of the next pair that gave the
      state `st`, the death flag `d` and the writes `w` extends the prefix's
      result, and when it died that is already the result of the whole call. */
  lemma SetAllNext(s: Snapshot, schema: Schema, cache: map<string, Row>, table: map<int, Row>, values: Row, i: nat,
                   st: Snapshot, d: bool, w: seq<CacheOp>)
    requires !schema.readOnly && i < |values|
    requires !SetAllStep(s, schema, cache, table, values[..i]).died
    requires var q := SetStep(SetAllStep(s, schema, cache, table, values[..i]).state, schema, cache, table,
                              values[i].0, values[i].1);
      st == q.state && d == q.died && w == q.writes
    ensures var n := SetAllStep(s, schema, cache, table, values[..i + 1]);
      n == Stepped(st, d, SetAllStep(s, schema, cache, table, values[..i]).writes + w)
    ensures d ==> SetAllStep(s, schema, cache, table, values) == SetAllStep(s, schema, cache, table, values[..i + 1])
  {
    SetAllSnoc(s, schema, cache, table, values, i);
    if d {
      SetAllDiedStays(s, schema, cache, table, values, i + 1);
    }
  }

  /** A setData that died at some field stays dead: the later fields change
      nothing and write nothing. */
  lemma {:induction false} SetAllDiedStays(s: Snapshot, schema: Schema, cache: map<string, Row>,
                                           table: map<int, Row>, values: Row, j: nat)
    requires j <= |values| && SetAllStep(s, schema, cache, table, values[..j]).died
    ensures SetAllStep(s, schema, cache, table, values) == SetAllStep(s, schema, cache, table, values[..j])
    decreases |values| - j
  {
    if j < |values| {
      var prefix := values[..|values| - 1];
      assert prefix[..j] == values[..j];
      SetAllDiedStays(s, schema, cache, table, prefix, j);
    } else {
      assert values[..j] == values;
    }
  }

  /** After setData on a writable record, each field written holds the value
      given for it, and every other field holds what load() left there. */
  lemma {:induction false} SetAllFields(s: Snapshot, schema: Schema, cache: map<string, Row>,
                                        table: map<int, Row>, values: Row, k: string)
    requires !schema.readOnly && Distinct(values)
    requires !SetAllStep(s, schema, cache, table, values).died
    ensures var t := if |values| == 0 then s else LoadStep(s, schema, cache, table).state;
      Get(SetAllStep(s, schema, cache, table, values).state.data, k) ==
        if k in Keys(values) then Get(values, k) else Get(t.data, k)
  {
    if |values| > 0 {
      var n := |values|;
      var prefix := values[..n - 1];
      var last := values[n - 1];
      DistinctSnoc(values);
      SetAllLast(s, schema, cache, table, values, k);
      var p := SetAllStep(s, schema, cache, table, prefix);
      if n > 1 {
        SetAllFields(s, schema, cache, table, prefix, k);
        assert LoadStep(p.state, schema, cache, table).state == p.state;
      }
      GetSnoc(values, k);
    }
  }

  /** The last write of setData on top of the writes before it. */
  lemma SetAllLast(s: Snapshot, schema: Schema, cache: map<string, Row>,
                   table: map<int, Row>, values: Row, k: string)
    requires !schema.readOnly && |values| > 0
    requires !SetAllStep(s, schema, cache, table, values).died
    ensures var p := SetAllStep(s, schema, cache, table, values[..|values| - 1]);
      var last := values[|values| - 1];
      && !p.died
      && Get(SetAllStep(s, schema, cache, table, values).state.data, k) ==
           if k == last.0 then Some(last.1) else Get(LoadStep(p.state, schema, cache, table).state.data, k)
  {
  }

  lemma DistinctSnoc<V>(a: seq<(string, V)>)
    requires Distinct(a) && |a| > 0
    ensures Distinct(a[..|a| - 1]) && a[|a| - 1].0 !in Keys(a[..|a| - 1])
  {
    var p := a[..|a| - 1];
    DistinctPairs(a);
    DistinctPairs(p);
    assert forall i :: 0 <= i < |p| ==> p[i] == a[i];
    assert a[|a| - 1].0 !in Keys(p) by {
      forall i | 0 <= i < |p| ensures Keys(p)[i] != a[|a| - 1].0 {
        assert a[i].0 != a[|a| - 1].0;
      }
    }
  }

  /** reset(): the fields go back to the baseline. */
  function ResetStep(s: Snapshot): (r: Snapshot)
    ensures !Modified(r)
    ensures WellFormed(s) ==> WellFormed(r)
    ensures r.oldData == s.oldData && r.id == s.id && r.loaded == s.loaded && r.isNew == s.isNew
  {
    s.(data := s.oldData)
  }

  /** $record->$name for a plain field: the value, or null with a notice. */
  function FieldValue(s: Snapshot, name: string): (v: Value)
    ensures name !in Keys(s.data) ==> v == Null
    ensures name in Keys(s.data) ==> Some(v) == Get(s.data, name)
  {
    GetOrNull(s.data, name)
  }

  /** isset($record->$name): the field exists and is not null. */
  predicate FieldIsSet(s: Snapshot, name: string)
  {
    Get(s.data, name).Some? && Get(s.data, name).value != Null
  }

  // ---------------------------------------------------------------------------
  // commit

  /** What commit asks the database to do. */
  datatype StoreWrite =
    | Insert(table: string, row: Row)
    | Update(table: string, row: Row, where: Row)

  /** The columns commit writes for an existing record: every baseline column,
      in baseline order, with its current value (null once unset). */
  function UpdatePayload(keys: seq<string>, data: Row): (r: Row)
    ensures forall k :: Get(r, k) == if k in keys then Some(GetOrNull(data, k)) else None
    decreases |keys|
  {
    if |keys| == 0 then []
    else
      var prefix := keys[..|keys| - 1];
      var k := keys[|keys| - 1];
      assert keys == prefix + [k];
      Put(UpdatePayload(prefix, data), k, GetOrNull(data, k))
  }

  /** With no column listed twice, the payload keeps the baseline order. */
  lemma {:induction false} UpdatePayloadKeys(keys: seq<string>, data: Row)
    requires Unique(keys)
    ensures Keys(UpdatePayload(keys, data)) == keys
    decreases |keys|
  {
    if |keys| > 0 {
      var prefix := keys[..|keys| - 1];
      var k := keys[|keys| - 1];
      assert keys == prefix + [k];
      assert Unique(prefix);
      assert k !in prefix by {
        assert forall i :: 0 <= i < |prefix| ==> prefix[i] == keys[i];
      }
      UpdatePayloadKeys(prefix, data);
    }
  }

  /** The payload loop's step: one more baseline column. */
  lemma UpdatePayloadSnoc(keys: seq<string>, data: Row, i: nat)
    requires i < |keys|
    ensures UpdatePayload(keys[..i + 1], data) == Put(UpdatePayload(keys[..i], data), keys[i], GetOrNull(data, keys[i]))
  {
    assert keys[..i + 1][..i] == keys[..i];
  }

  /** No element occurs twice. */
  predicate Unique<T(==)>(s: seq<T>)
  {
    forall i, j :: 0 <= i < j < |s| ==> s[i] != s[j]
  }

  /** commit()'s payload: all fields of a new record; for an existing one, the
      baseline's columns. */
  function Payload(s: Snapshot): Row
  {
    if s.isNew then s.data else UpdatePayload(Keys(s.oldData), s.data)
  }

  /** The result of commit(): whether it returned true, the new state, and its
      database and cache effects. */
  datatype Committed = Committed(ok: bool, state: Snapshot, write: Option<StoreWrite>, cacheOp: Option<CacheOp>)

  /** commit(): an empty payload returns false and does nothing. A new record is
      inserted and takes the id the database gives it, also as its primary-key
      field; an existing one is updated by primary key. Either way the record is
      written to the cache and the baseline becomes the current fields. `$new` is
      left as it was. */
  function CommitStep(s: Snapshot, schema: Schema, insertId: int): (r: Committed)
    ensures r.ok <==> Payload(s) != []
    ensures !r.ok ==> r == Committed(false, s, None, None)
    ensures r.ok ==> !Modified(r.state) && r.state.isNew == s.isNew && r.state.loaded == s.loaded
    ensures r.ok && s.isNew ==>
      && r.state.id == Some(insertId)
      && Get(r.state.data, schema.primary) == Some(Int(insertId))
      && r.write == Some(Insert(schema.table, s.data))
    ensures r.ok && !s.isNew ==>
      && r.state.id == s.id && r.state.data == s.data
      && r.write == Some(Update(schema.table, Payload(s), [(schema.primary, IdValue(s.id))]))
    ensures r.ok ==> r.cacheOp == Some(CacheSet(CommitKey(schema, r.state.id), r.state.data, Some(CommitTtl)))
    ensures WellFormed(s) ==> WellFormed(r.state)
  {
    var payload := Payload(s);
    if payload == [] then Committed(false, s, None, None)
    else if s.isNew then
      var id := Some(insertId);
      var data := Put(s.data, schema.primary, Int(insertId));
      assert Distinct(s.data) ==> Distinct(data) by {
        if Distinct(s.data) { PutDistinct(s.data, schema.primary, Int(insertId)); }
      }
      Committed(true, s.(id := id, data := data, oldData := data),
                Some(Insert(schema.table, payload)),
                Some(CacheSet(CommitKey(schema, id), data, Some(CommitTtl))))
    else
      Committed(true, s.(oldData := s.data),
                Some(Update(schema.table, payload, [(schema.primary, IdValue(s.id))])),
                Some(CacheSet(CommitKey(schema, s.id), s.data, Some(CommitTtl))))
  }

  /** Inserting a new record changes no field but the primary key. */
  lemma CommitStepFields(s: Snapshot, schema: Schema, insertId: int, k: string)
    requires s.isNew && Payload(s) != [] && k != schema.primary
    ensures Get(CommitStep(s, schema, insertId).state.data, k) == Get(s.data, k)
  {
  }

  /** The write of an existing record holds exactly the baseline's columns: a
      column added after loading is never written, a column unset since loading
      is written as null, and an untouched column is written with its baseline
      value (so every baseline column is written, changed or not). */
  lemma PayloadOfExisting(s: Snapshot, k: string)
    requires !s.isNew
    ensures Get(Payload(s), k).Some? <==> k in Keys(s.oldData)
    ensures k in Keys(s.oldData) && k !in Keys(s.data) ==> Get(Payload(s), k) == Some(Null)
    ensures k in Keys(s.oldData) && Get(s.data, k) == Get(s.oldData, k) ==> Get(Payload(s), k) == Get(s.oldData, k)
  {
  }

  /** A field whose value differs from its baseline: changed, added or unset. */
  predicate Changed(s: Snapshot, k: string)
  {
    Get(s.data, k) != Get(s.oldData, k)
  }

  /** The keys of `ks` that pass `p`, in order. */
  function KeysWhere(ks: seq<string>, p: string -> bool): (r: seq<string>)
    ensures forall k :: k in r <==> k in ks && p(k)
  {
    if |ks| == 0 then [] else (if p(ks[0]) then [ks[0]] else []) + KeysWhere(ks[1..], p)
  }

  /** The update the doc comment of commit() promises ("only modified fields are
      updated"): the changed fields, each with its current value (null once
      unset), the baseline's columns first, in baseline order, then the columns
      added since. */
  function DirtyPayload(s: Snapshot): (r: Row)
    ensures forall k :: Get(r, k).Some? <==> Changed(s, k)
    ensures forall k :: Changed(s, k) ==> Get(r, k) == Some(GetOrNull(s.data, k))
  {
    var keys := KeysWhere(Keys(s.oldData), k => Get(s.data, k) != Get(s.oldData, k)) +
                KeysWhere(Keys(s.data), k => k !in Keys(s.oldData));
    UpdatePayload(keys, s.data)
  }

  /** With the promised payload, __set adds only the written field to the next
      update: every other field is sent exactly as it already would have been,
      and the written field is sent, with its new value, when it now differs
      from its baseline. */
  lemma SetThenDirtyPayload(s: Snapshot, schema: Schema, cache: map<string, Row>, table: map<int, Row>,
                            name: string, value: Value, k: string)
    requires !schema.readOnly && LoadStep(s, schema, cache, table).outcome != NotFound
    ensures var t := LoadStep(s, schema, cache, table).state;
      var r := SetStep(s, schema, cache, table, name, value).state;
      && (k != name ==> Get(DirtyPayload(r), k) == Get(DirtyPayload(t), k))
      && Get(DirtyPayload(r), name) == if value.Arr? || Get(t.oldData, name) != Some(value) then Some(value) else None
  {
    SetStepFields(s, schema, cache, table, name, value, k);
    SetStepFields(s, schema, cache, table, name, value, name);
    DirtyAfterSet(LoadStep(s, schema, cache, table).state, SetStep(s, schema, cache, table, name, value).state,
                  name, value, k);
  }

  /** The described payload after a write of `value` under `name`, given only
      the fields the write leaves at `k` and at `name`. */
  lemma DirtyAfterSet(t: Snapshot, r: Snapshot, name: string, value: Value, k: string)
    requires Get(r.data, k) == (if k == name then Some(value) else Get(t.data, k))
    requires Get(r.oldData, k) == (if k == name && value.Arr? then Some(Null) else Get(t.oldData, k))
    requires Get(r.data, name) == Some(value)
    requires Get(r.oldData, name) == (if value.Arr? then Some(Null) else Get(t.oldData, name))
    ensures k != name ==> Get(DirtyPayload(r), k) == Get(DirtyPayload(t), k)
    ensures Get(DirtyPayload(r), name) == if value.Arr? || Get(t.oldData, name) != Some(value) then Some(value) else None
  {
    if k != name {
      DirtySame(r, t, k);
    }
    DirtyAt(r, name);
  }

  lemma DirtyAt(s: Snapshot, k: string)
    ensures Get(DirtyPayload(s), k) == if Changed(s, k) then Some(GetOrNull(s.data, k)) else None
  {
  }

  lemma DirtySame(a: Snapshot, b: Snapshot, k: string)
    requires Get(a.data, k) == Get(b.data, k) && Get(a.oldData, k) == Get(b.oldData, k)
    ensures Get(DirtyPayload(a), k) == Get(DirtyPayload(b), k)
  {
    DirtyAt(a, k);
    DirtyAt(b, k);
  }

  /** As written, __set on one field of an existing record still sends every
      untouched baseline column, with its baseline value; the promised payload
      leaves it out. */
  lemma SetSendsUntouchedColumn(s: Snapshot, schema: Schema, cache: map<string, Row>, table: map<int, Row>,
                                name: string, value: Value, g: string)
    requires !s.isNew && !schema.readOnly && LoadStep(s, schema, cache, table).outcome != NotFound
    requires var t := LoadStep(s, schema, cache, table).state;
      g != name && g in Keys(t.oldData) && Get(t.data, g) == Get(t.oldData, g)
    ensures var t := LoadStep(s, schema, cache, table).state;
      var r := SetStep(s, schema, cache, table, name, value).state;
      Get(Payload(r), g) == Get(t.oldData, g) && Get(DirtyPayload(r), g) == None
  {
    var t := LoadStep(s, schema, cache, table).state;
    var r := SetStep(s, schema, cache, table, name, value).state;
    SetStepFields(s, schema, cache, table, name, value, g);
    assert !r.isNew;
    PayloadOfExisting(r, g);
  }

  /** Writing an array into an existing record puts that column into the next
      update, even when the column was not in the loaded row. */
  lemma SetArrayJoinsPayload(s: Snapshot, schema: Schema, cache: map<string, Row>, table: map<int, Row>,
                             name: string, value: Value)
    requires !s.isNew && !schema.readOnly && value.Arr?
    requires LoadStep(s, schema, cache, table).outcome != NotFound
    ensures Get(Payload(SetStep(s, schema, cache, table, name, value).state), name) == Some(value)
  {
    var r := SetStep(s, schema, cache, table, name, value).state;
    assert !r.isNew && Get(r.data, name) == Some(value) && Get(r.oldData, name) == Some(Null);
    assert name in Keys(r.oldData);
    assert Payload(r) == UpdatePayload(Keys(r.oldData), r.data);
  }

  /** As written, `$new` survives an insert: committing the same record again,
      changed or not, inserts it again. */
  lemma SecondCommitInsertsAgain(s: Snapshot, schema: Schema, firstId: int, secondId: int)
    requires s.isNew && Payload(s) != []
    ensures var r1 := CommitStep(s, schema, firstId);
      var r2 := CommitStep(r1.state, schema, secondId);
      r1.ok && r2.ok && r2.write.Some? && r2.write.value.Insert?
  {
    var r1 := CommitStep(s, schema, firstId);
    assert Get(r1.state.data, schema.primary).Some?;
  }

  /** commit() as evidently intended: after an insert the record is no longer
      new, and the record is written to the cache under the key load() reads. */
  function CommitStepIntended(s: Snapshot, schema: Schema, insertId: int): (r: Committed)
    ensures r.ok <==> Payload(s) != []
    ensures !r.ok ==> r == Committed(false, s, None, None)
    ensures r.ok ==> !Modified(r.state) && !r.state.isNew
    ensures r.ok ==> r.write == CommitStep(s, schema, insertId).write
    ensures r.ok ==> r.cacheOp == Some(CacheSet(LoadKey(schema, r.state.id), r.state.data, Some(CommitTtl)))
    ensures WellFormed(s) ==> WellFormed(r.state)
  {
    var r := CommitStep(s, schema, insertId);
    if !r.ok then r
    else
      r.(state := r.state.(isNew := false),
         cacheOp := Some(CacheSet(LoadKey(schema, r.state.id), r.state.data, Some(CommitTtl))))
  }

  /** With the intended commit, committing a record again after its insert updates
      the row it was inserted as. */
  lemma CommitIntendedThenUpdates(s: Snapshot, schema: Schema, firstId: int, secondId: int)
    requires s.isNew && Payload(s) != []
    ensures var r1 := CommitStepIntended(s, schema, firstId);
      var r2 := CommitStepIntended(r1.state, schema, secondId);
      r1.ok && r2.ok && r2.write == Some(Update(schema.table, Payload(r1.state), [(schema.primary, Int(firstId))]))
  {
    var r1 := CommitStepIntended(s, schema, firstId);
    var t := r1.state;
    assert Get(t.oldData, schema.primary).Some?;
    assert Get(Payload(t), schema.primary).Some?;
  }

  /** The two cache keys never meet: their lengths differ by two. */
  lemma CacheKeysDiffer(schema: Schema, id: Option<int>)
    ensures LoadKey(schema, id) != CommitKey(schema, id)
  {
    assert |LoadKey(schema, id)| + 2 == |CommitKey(schema, id)|;
  }

  /** As written, commit() does not touch the cache entry load() reads, so another
      instance with the same id loads the row as it was before the commit. */
  lemma CommitLeavesStaleCache(s: Snapshot, schema: Schema, cache: map<string, Row>,
                               table: map<int, Row>, insertId: int)
    requires !s.isNew && Payload(s) != []
    requires LoadKey(schema, s.id) in cache && cache[LoadKey(schema, s.id)] != s.data
    ensures var r := CommitStep(s, schema, insertId);
      var other := Snapshot(r.state.id, [], [], false, false);
      var l := LoadStep(other, schema, ApplyCache(cache, r.cacheOp.value), table);
      l.outcome == Hit && l.state.data != r.state.data
  {
    CacheKeysDiffer(schema, s.id);
  }

  /** With the intended commit, another instance with the same id loads what was
      committed. */
  lemma CommitIntendedRefreshesCache(s: Snapshot, schema: Schema, cache: map<string, Row>,
                                     table: map<int, Row>, insertId: int)
    requires Payload(s) != []
    ensures var r := CommitStepIntended(s, schema, insertId);
      var other := Snapshot(r.state.id, [], [], false, false);
      var l := LoadStep(other, schema, ApplyCache(cache, r.cacheOp.value), table);
      l.outcome == Hit && l.state.data == r.state.data
  {
  }
}

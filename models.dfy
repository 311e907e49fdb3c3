/** DbModel instances and the identity map Model::$factory that holds them.
    Both live in one module because a commit writes itself into the registry
    and the registry holds instances. */
module Models {
  import opened Php
  import opened Assoc
  import opened Relations
  import opened Records
  import opened Eviction

  /** What `$record->$name` gives: a field value, or the instance a one-to-one
      relation resolves to. */
  datatype Field = Plain(value: Value) | Related(entity: Entity)

  /** A DbModel instance. `schema` stands for the static members of its class. */
  class Entity {
    const schema: Schema
    var id: Option<int>
    var data: Row
    var oldData: Row
    var loaded: bool
    var isNew: bool
    /** $relation_classes: instances resolved through one-to-one relations. */
    var related: map<string, Entity>

    function State(): Snapshot
      reads this
    {
      Snapshot(id, data, oldData, loaded, isNew)
    }

    predicate Valid()
      reads this
    {
      WellFormed(State())
    }

    /** isModified(). */
    predicate IsModified()
      reads this
    {
      data != oldData
    }

    /** new Class($arg). */
    constructor (schema: Schema, arg: Value)
      ensures this.schema == schema && related == map[]
      ensures State() == Constructed(schema, arg)
      ensures (arg.Arr? ==> Distinct(arg.entries)) ==> Valid()
    {
      this.schema := schema;
      related := map[];
      if arg.Arr? {
        data := arg.entries;
        oldData := arg.entries;
        id := Some(IntCast(GetOrNull(arg.entries, schema.primary)));
        loaded := true;
        isNew := false;
      } else if !arg.Null? {
        id := Some(IntCast(arg));
        data := [];
        oldData := [];
        loaded := false;
        isNew := false;
      } else {
        id := None;
        data := [];
        oldData := [];
        loaded := false;
        isNew := true;
      }
    }

    /** load(), with the cache and the class's table as parameters. */
    method Load(cache: map<string, Row>, table: map<int, Row>) returns (outcome: LoadOutcome, writes: seq<CacheOp>)
      modifies this`data, this`oldData, this`loaded
      ensures var l := LoadStep(old(State()), schema, cache, table);
        State() == l.state && outcome == l.outcome && writes == l.writes
      ensures old(Valid()) && RowsDistinct(cache) && RowsDistinct(table) ==> Valid()
    {
      if loaded || isNew {
        return Skipped, [];
      }
      var key := LoadKey(schema, id);
      if key in cache {
        data := cache[key];
        oldData := data;
        loaded := true;
        return Hit, [];
      }
      if id.Some? && id.value in table {
        var row := table[id.value];
        data := row;
        oldData := row;
        loaded := true;
        return Fetched, [CacheSet(key, row, None), CacheExpire(key, LoadTtl)];
      }
      return NotFound, [];
    }

    /** __set($name, $value). */
    method Set(name: string, value: Value, cache: map<string, Row>, table: map<int, Row>)
      returns (died: bool, writes: seq<CacheOp>)
      modifies this`data, this`oldData, this`loaded
      ensures var r := SetStep(old(State()), schema, cache, table, name, value);
        State() == r.state && died == r.died && writes == r.writes
      ensures old(Valid()) && RowsDistinct(cache) && RowsDistinct(table) ==> Valid()
    {
      died, writes := false, [];
      if !schema.readOnly {
        var outcome;
        outcome, writes := Load(cache, table);
        if outcome == NotFound {
          return true, [];
        }
        data := Put(data, name, value);
        if value.Arr? {
          oldData := Put(oldData, name, Null);
        }
      }
    }

    /** unset($record->$name). */
    method Unset(name: string, cache: map<string, Row>, table: map<int, Row>)
      returns (died: bool, writes: seq<CacheOp>)
      modifies this`data, this`oldData, this`loaded
      ensures var r := UnsetStep(old(State()), schema, cache, table, name);
        State() == r.state && died == r.died && writes == r.writes
      ensures old(Valid()) && RowsDistinct(cache) && RowsDistinct(table) ==> Valid()
    {
      died, writes := false, [];
      if !schema.readOnly {
        var outcome;
        outcome, writes := Load(cache, table);
        if outcome == NotFound {
          return true, [];
        }
        data := Delete(data, name);
        if InArrayLoose(name, Values(oldData)) {
          data := Put(data, name, Null);
        }
      }
    }

    /** reset(). */
    method Reset()
      modifies this`data
      ensures State() == ResetStep(old(State()))
      ensures !IsModified()
      ensures old(Valid()) ==> Valid()
    {
      data := oldData;
    }

    /** Whether `$name` names a one-to-one relation of this class. */
    predicate IsOneRelation(name: string)
    {
      name in schema.relations && schema.relations[name].kind == One
    }

    /** __get($name): load, then either the memoised or a newly built instance
        for a one-to-one relation (built with `new`, from the value of the
        relation's key column), or the field's value. A process that dies in
        load() gets null here. */
    method Get(name: string, schemas: map<string, Schema>, cache: map<string, Row>, table: map<int, Row>)
      returns (died: bool, f: Field, writes: seq<CacheOp>)
      requires schema.name in schemas && schemas[schema.name] == schema && Configured(schemas)
      modifies this`data, this`oldData, this`loaded, this`related
      ensures var l := LoadStep(old(State()), schema, cache, table);
        State() == l.state && writes == l.writes && (died <==> l.outcome == NotFound)
      ensures died ==> f == Plain(Null) && related == old(related)
      ensures !died && !IsOneRelation(name) ==> f == Plain(FieldValue(State(), name)) && related == old(related)
      ensures !died && IsOneRelation(name) && name in old(related) ==>
        f == Related(old(related)[name]) && related == old(related)
      ensures !died && IsOneRelation(name) && name !in old(related) ==>
        && f.Related? && fresh(f.entity)
        && f.entity.schema == schemas[schema.relations[name].target]
        && f.entity.State() == Constructed(f.entity.schema, FieldValue(State(), schema.relations[name].key))
        && related == old(related)[name := f.entity]
    {
      var outcome;
      outcome, writes := Load(cache, table);
      if outcome == NotFound {
        return true, Plain(Null), [];
      }
      died := false;
      if IsOneRelation(name) {
        if name in related {
          f := Related(related[name]);
        } else {
          var relation := schema.relations[name];
          assert relation.target in schemas;
          var e := new Entity(schemas[relation.target], GetOrNull(data, relation.key));
          related := related[name := e];
          f := Related(e);
        }
      } else {
        f := Plain(GetOrNull(data, name));
      }
    }

    /** __isset($name). */
    method IsSet(name: string, cache: map<string, Row>, table: map<int, Row>)
      returns (died: bool, isSet: bool, writes: seq<CacheOp>)
      modifies this`data, this`oldData, this`loaded
      ensures var l := LoadStep(old(State()), schema, cache, table);
        State() == l.state && writes == l.writes && (died <==> l.outcome == NotFound)
      ensures !died ==> (isSet <==> FieldIsSet(State(), name))
    {
      var outcome;
      outcome, writes := Load(cache, table);
      died := outcome == NotFound;
      isSet := !died && Assoc.Get(data, name).Some? && Assoc.Get(data, name).value != Null;
    }

    /** setData($values): __set for each pair, in order, unless read-only. */
    method SetData(values: Row, cache: map<string, Row>, table: map<int, Row>)
      returns (died: bool, writes: seq<CacheOp>)
      modifies this`data, this`oldData, this`loaded
      ensures var r := SetAllStep(old(State()), schema, cache, table, values);
        State() == r.state && died == r.died && writes == r.writes
    {
      died, writes := false, [];
      if schema.readOnly {
        return;
      }
      ghost var s0 := State();
      var i := 0;
      while i < |values|
        invariant 0 <= i <= |values| && s0 == old(State())
        invariant var p := SetAllStep(s0, schema, cache, table, values[..i]);
          !p.died && State() == p.state && writes == p.writes
      {
        var d, w := Set(values[i].0, values[i].1, cache, table);
        SetAllNext(s0, schema, cache, table, values, i, State(), d, w);
        writes := writes + w;
        if d {
          return true, writes;
        }
        i := i + 1;
      }
      assert values[..i] == values;
    }

    /** The array commit() writes: all fields of a new record; for an
        existing one, each baseline column with its current value. */
    method CommitPayload() returns (payload: Row)
      ensures payload == Payload(State())
    {
      if isNew {
        return data;
      }
      payload := [];
      var keys := Keys(oldData);
      var i := 0;
      while i < |keys|
        invariant 0 <= i <= |keys|
        invariant payload == UpdatePayload(keys[..i], data)
      {
        UpdatePayloadSnoc(keys, data, i);
        payload := Put(payload, keys[i], GetOrNull(data, keys[i]));
        i := i + 1;
      }
      assert keys[..i] == keys;
    }

    /** commit(). The payload is built field by field; a new record is then
        inserted, takes the id the database reports (`insertId`) and is entered
        into the registry after a cleanup; an existing one is updated. */
    method Commit(insertId: int, reg: Registry) returns (ok: bool, write: Option<StoreWrite>, cacheOp: Option<CacheOp>)
      requires Distinct(reg.Slots(schema.name))
      modifies this`id, this`data, this`oldData, reg
      ensures var r := CommitStep(old(State()), schema, insertId);
        State() == r.state && ok == r.ok && write == r.write && cacheOp == r.cacheOp
      ensures old(Valid()) ==> Valid()
      ensures Distinct(reg.Slots(schema.name))
      ensures !(ok && old(isNew)) ==> reg.factory == old(reg.factory)
      ensures ok && old(isNew) ==>
        reg.factory == old(reg.factory)[schema.name := old(Registered(reg.Slots(schema.name), this,
          Put(data, schema.primary, Int(insertId)) != oldData, IntToString(insertId)))]
    {
      if isNew {
        if data == [] {
          return false, None, None;
        }
        write, cacheOp := CommitInsert(insertId, reg, data);
      } else {
        var payload := CommitPayload();
        if payload == [] {
          return false, None, None;
        }
        write, cacheOp := CommitUpdate(payload);
      }
      ok := true;
    }

    /** The insert half of commit(): the record takes the id the database gave
        it, also as its primary-key field, is entered into the registry and
        becomes its own baseline. */
    method CommitInsert(insertId: int, reg: Registry, payload: Row) returns (write: Option<StoreWrite>, cacheOp: Option<CacheOp>)
      requires Distinct(reg.Slots(schema.name))
      modifies this`id, this`data, this`oldData, reg
      ensures id == Some(insertId) && data == old(Put(data, schema.primary, Int(insertId))) && oldData == data
      ensures write == Some(Insert(schema.table, payload))
      ensures cacheOp == Some(CacheSet(CommitKey(schema, id), data, Some(CommitTtl)))
      ensures Distinct(reg.Slots(schema.name))
      ensures reg.factory == old(reg.factory)[schema.name := old(Registered(reg.Slots(schema.name), this,
        Put(data, schema.primary, Int(insertId)) != oldData, IntToString(insertId)))]
    {
      ghost var before := reg.Slots(schema.name);
      ghost var selfFlag := Put(data, schema.primary, Int(insertId)) != oldData;
      ghost var flags := FlagsWith(before, this, selfFlag);
      id := Some(insertId);
      data := Put(data, schema.primary, Int(insertId));
      write := Some(Insert(schema.table, payload));
      assert reg.Slots(schema.name) == before;
      assert FlagsWith(before, this, selfFlag) == flags;
      reg.Enter(schema.name, IntToString(insertId), this, this, selfFlag);
      assert reg.factory == old(reg.factory)[schema.name := Put(Cleanup(before, flags), IntToString(insertId), this)];
      cacheOp := Some(CacheSet(CommitKey(schema, id), data, Some(CommitTtl)));
      oldData := data;
    }

    /** The update half of commit(). */
    method CommitUpdate(payload: Row) returns (write: Option<StoreWrite>, cacheOp: Option<CacheOp>)
      requires !isNew && payload == Payload(State()) && payload != []
      modifies this`oldData
      ensures var r := CommitStep(old(State()), schema, 0);
        State() == r.state && write == r.write && cacheOp == r.cacheOp
    {
      write := Some(Update(schema.table, payload, [(schema.primary, IdValue(id))]));
      cacheOp := Some(CacheSet(CommitKey(schema, id), data, Some(CommitTtl)));
      oldData := data;
    }

    /** __toString(): the id as text, which reads back as the id. */
    function ToString(): (s: string)
      reads this
      ensures id.None? ==> s == ""
      ensures id.Some? ==> ParseInt(s) == id.value
    {
      ParseIntRoundTrip(if id.Some? then id.value else 0);
      IdText(id)
    }
  }

  /** The entities of a class's registry slots. */
  function Objects(s: seq<(string, Entity)>): set<Entity>
  {
    if |s| == 0 then {} else {s[0].1} + Objects(s[1..])
  }

  /** Each slot's isModified(), except that `self` is taken to report `selfFlag`. */
  ghost function FlagsWith(s: seq<(string, Entity)>, self: Entity?, selfFlag: bool): (f: seq<bool>)
    reads Objects(s) - {self}
    ensures |f| == |s|
    ensures forall i :: 0 <= i < |s| ==> f[i] == if s[i].1 == self then selfFlag else s[i].1.IsModified()
  {
    if |s| == 0 then []
    else [if s[0].1 == self then selfFlag else s[0].1.IsModified()] + FlagsWith(s[1..], self, selfFlag)
  }

  /** Each slot's isModified(). */
  ghost function Flags(s: seq<(string, Entity)>): (f: seq<bool>)
    reads Objects(s)
    ensures |f| == |s|
    ensures forall i :: 0 <= i < |s| ==> f[i] == s[i].1.IsModified()
  {
    FlagsWith(s, null, false)
  }

  /** Taking `self`'s flag as what it reports anyway changes nothing. */
  lemma FlagsWithSelf(s: seq<(string, Entity)>, self: Entity?, selfFlag: bool)
    requires self != null ==> self.IsModified() == selfFlag
    ensures FlagsWith(s, self, selfFlag) == Flags(s)
  {
  }

  /** The slots commit() leaves for a new record's class: a cleanup in which
      `self` reports `selfFlag`, then `self` under its new id. */
  ghost function Registered(slots: seq<(string, Entity)>, self: Entity, selfFlag: bool, key: string): seq<(string, Entity)>
    reads Objects(slots) - {self}
  {
    Put(Cleanup(slots, FlagsWith(slots, self, selfFlag)), key, self)
  }

  /** The key PHP files `$factory[$class][$id]` under, for an id that is not an
      array: null is "", booleans are 0 and 1, an object stands for its id. */
  function RegistryKey(v: Value): string
  {
    match v
    case Null => ""
    case Bool(b) => if b then "1" else "0"
    case Int(i) => IntToString(i)
    case Str(s) => s
    case Obj(id) => IdText(id)
    case Arr(_) => ""
    case Resource(h) => IntToString(h)
  }

  /** The stored instance under `key` can be handed out again. */
  predicate Reusable(s: seq<(string, Entity)>, key: string)
    reads Objects(s)
  {
    GetInObjects(s, key);
    match Get(s, key)
    case Some(e) => !e.IsModified()
    case None => false
  }

  lemma {:induction false} GetInObjects(s: seq<(string, Entity)>, key: string)
    ensures Get(s, key).Some? ==> Get(s, key).value in Objects(s)
  {
    if |s| > 0 && s[0].0 != key {
      GetInObjects(s[1..], key);
    }
  }

  lemma UpdateTwice<K, V>(m: map<K, V>, k: K, a: V, b: V)
    ensures m[k := a][k := b] == m[k := b]
  {
  }

  /** Model::$factory, the instances in insertion order. */
  class Registry {
    var factory: map<string, seq<(string, Entity)>>

    function Slots(c: string): seq<(string, Entity)>
      reads this
    {
      if c in factory then factory[c] else []
    }

    constructor ()
      ensures factory == map[]
    {
      factory := map[];
    }

    /** factoryCleanup(): above 99 entries, unmodified instances are dropped
        oldest first until 99 remain or none is left to drop. */
    method FactoryCleanup(c: string)
      requires Distinct(Slots(c))
      modifies this
      ensures Distinct(Slots(c))
      ensures c !in old(factory) ==> factory == old(factory)
      ensures c in old(factory) ==>
        factory == old(factory)[c := Cleanup(old(Slots(c)), old(Flags(Slots(c))))]
    {
      if c !in factory {
        return;
      }
      var s := factory[c];
      ghost var flags := Flags(s);
      if |s| <= Limit {
        assert Cleanup(s, flags) == s;
        assert old(factory)[c := s] == factory;
        return;
      }
      var cur := s;
      var i := 0;
      while i < |s|
        invariant 0 <= i <= |s|
        invariant factory == old(factory)[c := cur]
        invariant cur == Walk(s, flags, i) && |cur| > Limit
      {
        var modified := s[i].1.IsModified();
        assert modified == flags[i];
        WalkNext(s, flags, i);
        if !modified {
          UpdateTwice(old(factory), c, cur, Delete(cur, s[i].0));
          cur := Delete(cur, s[i].0);
          factory := factory[c := cur];
        }
        if |cur| <= Limit {
          CleanupWalk(s, flags, i + 1);
          return;
        }
        i := i + 1;
      }
      CleanupWalk(s, flags, i);
    }

    /** factoryReset($force): every unmodified instance of the class is dropped.
        `$force` only nulls the loop's own copy of the reference, so it has no
        effect on the registry. */
    method FactoryReset(c: string, force: bool)
      requires Distinct(Slots(c))
      modifies this
      ensures Distinct(Slots(c))
      ensures c !in old(factory) ==> factory == old(factory)
      ensures c in old(factory) ==>
        factory == old(factory)[c := KeepDirty(old(Slots(c)), old(Flags(Slots(c))))]
    {
      if c in factory {
        var s := factory[c];
        ghost var flags := Flags(s);
        var i := 0;
        while i < |s|
          invariant 0 <= i <= |s|
          invariant factory == old(factory)[c := Walk(s, flags, i)]
        {
          WalkNext(s, flags, i);
          if !s[i].1.IsModified() {
            UpdateTwice(old(factory), c, Walk(s, flags, i), Delete(factory[c], s[i].0));
            factory := factory[c := Delete(factory[c], s[i].0)];
          }
          i := i + 1;
        }
        ResetWalk(s, flags);
      }
    }

    /** Model::factory($arg) for a DbModel class: an array builds an unregistered
        instance; otherwise the stored instance under the id is returned when it
        is unmodified, and a new instance replaces it (after a cleanup) when it
        is missing or modified. */
    method Factory(schema: Schema, arg: Value) returns (e: Entity)
      requires Distinct(Slots(schema.name))
      modifies this
      ensures Distinct(Slots(schema.name))
      ensures !old(Reusable(Slots(schema.name), RegistryKey(arg))) || arg.Arr? ==>
        fresh(e) && e.schema == schema && e.State() == Constructed(schema, arg) && e.related == map[]
      ensures arg.Arr? ==> factory == old(factory)
      ensures !arg.Arr? && old(Reusable(Slots(schema.name), RegistryKey(arg))) ==>
        Some(e) == old(Get(Slots(schema.name), RegistryKey(arg))) && factory == old(factory)
      ensures !arg.Arr? && !old(Reusable(Slots(schema.name), RegistryKey(arg))) ==>
        factory == old(factory)[schema.name :=
          Put(Cleanup(old(Slots(schema.name)), old(Flags(Slots(schema.name)))), RegistryKey(arg), e)]
      ensures !arg.Arr? ==> Get(Slots(schema.name), RegistryKey(arg)) == Some(e)
    {
      var c := schema.name;
      if arg.Arr? {
        e := new Entity(schema, arg);
        return;
      }
      var key := RegistryKey(arg);
      var found := Get(Slots(c), key);
      if found.Some? && !found.value.IsModified() {
        return found.value;
      }
      ghost var flags := Flags(Slots(c));
      e := new Entity(schema, arg);
      assert Flags(Slots(c)) == flags;
      Enter(c, key, e, null, false);
    }

    /** `$factory[$class][$id] = $object` after a factoryCleanup(), as both
        factory() and commit() do it. */
    method Enter(c: string, key: string, e: Entity, ghost self: Entity?, ghost selfFlag: bool)
      requires Distinct(Slots(c))
      requires self != null ==> self.IsModified() == selfFlag
      modifies this
      ensures Distinct(Slots(c))
      ensures factory == old(factory)[c := Put(Cleanup(old(Slots(c)), old(FlagsWith(Slots(c), self, selfFlag))), key, e)]
    {
      ghost var before := Slots(c);
      ghost var flags := Flags(before);
      FlagsWithSelf(before, self, selfFlag);
      FactoryCleanup(c);
      assert Slots(c) == Cleanup(before, flags);
      PutDistinct(Slots(c), key, e);
      UpdateTwice(old(factory), c, Slots(c), Put(Slots(c), key, e));
      factory := factory[c := Put(Slots(c), key, e)];
    }
  }

  /** The identity map at work: asking twice for the same id, with nothing
      modified in between, hands out the same instance. */
  method FactoryTwice(reg: Registry, schema: Schema, id: int) returns (first: Entity, second: Entity)
    requires Distinct(reg.Slots(schema.name))
    modifies reg
    ensures first == second
  {
    first := reg.Factory(schema, Int(id));
    assert !first.IsModified();
    second := reg.Factory(schema, Int(id));
  }
}

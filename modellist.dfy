/** ModelList: the lazy result list. It keeps the ids of a search in order, once
    each, and makes an instance for an id only when that element is read. */
module ModelLists {
  import opened Php
  import opened Relations
  import opened Records
  import opened Models

  // ---------------------------------------------------------------------------
  // Ids as array keys

  /** No id occurs twice. */
  predicate NoDup(s: seq<string>)
  {
    forall i, j :: 0 <= i < j < |s| ==> s[i] != s[j]
  }

  /** array_fill_keys($data, null): every value becomes a key by its string form
      (an integer key and its decimal text are the same key); a repeated key
      keeps the place of its first occurrence. */
  function Dedup(s: seq<string>): (r: seq<string>)
    decreases |s|
  {
    if |s| == 0 then []
    else
      var r := Dedup(s[..|s| - 1]);
      if s[|s| - 1] in r then r else r + [s[|s| - 1]]
  }

  /** The position of the first occurrence of `x` in `s`. */
  function FirstIndex(s: seq<string>, x: string): (i: nat)
    requires x in s
    ensures i < |s| && s[i] == x && x !in s[..i]
  {
    if s[0] == x then 0 else 1 + FirstIndex(s[1..], x)
  }

  lemma {:induction false} FirstIndexAppend(s: seq<string>, t: seq<string>, x: string)
    requires x in s
    ensures x in s + t && FirstIndex(s + t, x) == FirstIndex(s, x)
  {
    if s[0] != x {
      assert (s + t)[1..] == s[1..] + t;
      FirstIndexAppend(s[1..], t, x);
    }
  }

  lemma FirstIndexLast(s: seq<string>, x: string)
    requires x !in s
    ensures x in s + [x] && FirstIndex(s + [x], x) == |s|
  {
    assert (s + [x])[|s|] == x;
  }

  /** Construction keeps each id once, holds exactly the ids given, and lists
      them in the order of their first occurrences. */
  lemma {:induction false} DedupSpec(s: seq<string>)
    ensures NoDup(Dedup(s))
    ensures forall x :: x in Dedup(s) <==> x in s
    ensures forall i, j :: 0 <= i < j < |Dedup(s)| ==>
      Dedup(s)[i] in s && Dedup(s)[j] in s && FirstIndex(s, Dedup(s)[i]) < FirstIndex(s, Dedup(s)[j])
    decreases |s|
  {
    if |s| > 0 {
      var p := s[..|s| - 1];
      var x := s[|s| - 1];
      assert s == p + [x];
      DedupSpec(p);
      var r := Dedup(p);
      forall y | y in p
        ensures y in s && FirstIndex(s, y) == FirstIndex(p, y)
      {
        FirstIndexAppend(p, [x], y);
      }
      if x !in r {
        FirstIndexLast(p, x);
        assert Dedup(s) == r + [x];
      }
    }
  }

  /** A list without repeats is kept as it is. */
  lemma {:induction false} DedupNoDup(s: seq<string>)
    requires NoDup(s)
    ensures Dedup(s) == s
    decreases |s|
  {
    if |s| > 0 {
      var p := s[..|s| - 1];
      assert NoDup(p);
      DedupNoDup(p);
      assert s[|s| - 1] !in p;
      assert s == p + [s[|s| - 1]];
    }
  }

  /** What array_keys gives back for a key: an integer for the decimal text of
      an integer, the text itself otherwise. */
  function KeyValue(k: string): (v: Value)
    ensures StringOf(v) == k
  {
    if IntToString(ParseInt(k)) == k then Int(ParseInt(k)) else Str(k)
  }

  function KeyValues(ks: seq<string>): (vs: seq<Value>)
    ensures |vs| == |ks| && forall i :: 0 <= i < |ks| ==> vs[i] == KeyValue(ks[i])
  {
    if |ks| == 0 then [] else [KeyValue(ks[0])] + KeyValues(ks[1..])
  }

  /** Reading the keys back and filling them in again gives the same keys. */
  lemma KeysRoundTrip(ks: seq<string>)
    requires NoDup(ks)
    ensures Dedup(Texts(KeyValues(ks))) == ks
  {
    TextsOfKeys(ks);
    DedupNoDup(ks);
  }

  // ---------------------------------------------------------------------------
  // The id transforms of __call

  /** The array functions a list answers through __call, each applied to the ids
      as array_keys returns them. */
  datatype Transform =
    | Count
    | Filter(keep: Value -> bool)
    | MapIds(f: Value -> Value)
    | Slice(offset: int, length: Option<int>)

  /** What such a call gives: a scalar is passed back as it is; an array becomes
      a new list of the same class over its values. */
  datatype Outcome = Scalar(value: Value) | Ids(values: seq<Value>)

  /** `r` is `s` with some elements left out and the others in their order. */
  predicate IsSubseq(r: seq<Value>, s: seq<Value>)
    decreases |s|
  {
    |r| == 0 || (|s| > 0 && if r[0] == s[0] then IsSubseq(r[1..], s[1..]) else IsSubseq(r, s[1..]))
  }

  /** array_filter: the accepted values, in their order, each as often as it
      occurs, and nothing else. */
  function FilterValues(vs: seq<Value>, keep: Value -> bool): (r: seq<Value>)
    ensures |r| <= |vs|
    ensures forall i :: 0 <= i < |r| ==> r[i] in vs && keep(r[i])
    ensures forall i :: 0 <= i < |vs| && keep(vs[i]) ==> vs[i] in r
  {
    if |vs| == 0 then []
    else if keep(vs[0]) then [vs[0]] + FilterValues(vs[1..], keep)
      else FilterValues(vs[1..], keep)
  }

  /** The filter keeps the accepted values in their order, each as often as it
      occurs, and nothing else. */
  lemma {:induction false} FilterValuesExact(vs: seq<Value>, keep: Value -> bool)
    ensures IsSubseq(FilterValues(vs, keep), vs)
    ensures forall x :: multiset(FilterValues(vs, keep))[x] == if keep(x) then multiset(vs)[x] else 0
  {
    if |vs| > 0 {
      FilterValuesExact(vs[1..], keep);
      assert vs == [vs[0]] + vs[1..];
    }
  }

  function MapValues(vs: seq<Value>, f: Value -> Value): (r: seq<Value>)
    ensures |r| == |vs| && forall i :: 0 <= i < |vs| ==> r[i] == f(vs[i])
  {
    if |vs| == 0 then [] else [f(vs[0])] + MapValues(vs[1..], f)
  }

  function Apply(ids: seq<string>, t: Transform): Outcome
  {
    var vs := KeyValues(ids);
    match t
    case Count => Scalar(Int(|vs|))
    case Filter(keep) => Ids(FilterValues(vs, keep))
    case MapIds(f) => Ids(MapValues(vs, f))
    case Slice(offset, length) => Ids(ArraySlice(vs, offset, length))
  }

  /** count() is the number of ids; filter keeps ids of the list and exactly the
      accepted ones; map gives one value per id; slice is array_slice. */
  lemma ApplySpec(ids: seq<string>, t: Transform)
    ensures t.Count? ==> Apply(ids, t) == Scalar(Int(|ids|))
    ensures t.Filter? ==> var r := Apply(ids, t).values;
      (forall i :: 0 <= i < |r| ==> StringOf(r[i]) in ids && t.keep(r[i])) &&
      (forall i :: 0 <= i < |ids| && t.keep(KeyValue(ids[i])) ==> ids[i] in Texts(r)) &&
      (NoDup(ids) ==> InIdOrder(r, ids))
    ensures t.MapIds? ==> Apply(ids, t) == Ids(MapValues(KeyValues(ids), t.f))
    ensures t.Slice? ==> Texts(Apply(ids, t).values) == ArraySlice(ids, t.offset, t.length)
  {
    var vs := KeyValues(ids);
    TextsOfKeys(ids);
    match t
    case Count =>
    case Filter(keep) =>
      FilterSpec(ids, keep);
    case MapIds(f) =>
    case Slice(offset, length) =>
      TextsSlice(vs, offset, length);
  }

  /** array_filter on the ids: what stays is among the ids and passes the test,
      every id that passes the test stays, and on ids without repeats what stays
      keeps the ids' order, each id once. */
  lemma FilterSpec(ids: seq<string>, keep: Value -> bool)
    ensures var r := FilterValues(KeyValues(ids), keep);
      (forall i :: 0 <= i < |r| ==> StringOf(r[i]) in ids && keep(r[i])) &&
      (forall i :: 0 <= i < |ids| && keep(KeyValue(ids[i])) ==> ids[i] in Texts(r)) &&
      (NoDup(ids) ==> InIdOrder(r, ids))
  {
    FilterSound(ids, keep);
    FilterComplete(ids, keep);
    if NoDup(ids) {
      FilterOrder(ids, keep);
    }
  }

  /** The values of `r` print as ids, in the order those ids have in `ids`. */
  predicate InIdOrder(r: seq<Value>, ids: seq<string>)
  {
    forall i, j :: 0 <= i < j < |r| ==> Before(ids, StringOf(r[i]), StringOf(r[j]))
  }

  /** Both texts are ids, and `a` comes first. */
  predicate Before(ids: seq<string>, a: string, b: string)
  {
    a in ids && b in ids && FirstIndex(ids, a) < FirstIndex(ids, b)
  }

  /** On ids without repeats, a filter keeps the ids in their order. */
  lemma {:induction false} FilterOrder(ids: seq<string>, keep: Value -> bool)
    requires NoDup(ids)
    ensures InIdOrder(FilterValues(KeyValues(ids), keep), ids)
    decreases |ids|
  {
    if |ids| > 0 {
      var vs := KeyValues(ids);
      var tail := ids[1..];
      assert vs[1..] == KeyValues(tail);
      FilterOrder(tail, keep);
      FilterSound(tail, keep);
      var r' := FilterValues(KeyValues(tail), keep);
      OrderShift(ids, r');
      if keep(vs[0]) {
        OrderCons(ids, vs[0], r');
        assert FilterValues(vs, keep) == [vs[0]] + r';
      } else {
        assert FilterValues(vs, keep) == r';
      }
    }
  }

  /** An order on the tail of the ids is an order on the ids. */
  lemma OrderShift(ids: seq<string>, r: seq<Value>)
    requires NoDup(ids) && |ids| > 0
    requires InIdOrder(r, ids[1..]) && forall i :: 0 <= i < |r| ==> StringOf(r[i]) in ids[1..]
    ensures InIdOrder(r, ids)
  {
    forall i, j | 0 <= i < j < |r|
      ensures Before(ids, StringOf(r[i]), StringOf(r[j]))
    {
      BeforeShift(ids, StringOf(r[i]), StringOf(r[j]));
    }
  }

  lemma BeforeShift(ids: seq<string>, a: string, b: string)
    requires NoDup(ids) && |ids| > 0 && Before(ids[1..], a, b)
    ensures Before(ids, a, b)
  {
    FirstIndexTail(ids, a);
    FirstIndexTail(ids, b);
  }

  /** The first id goes in front of anything from the tail. */
  lemma OrderCons(ids: seq<string>, h: Value, r: seq<Value>)
    requires NoDup(ids) && |ids| > 0 && StringOf(h) == ids[0]
    requires InIdOrder(r, ids) && forall i :: 0 <= i < |r| ==> StringOf(r[i]) in ids[1..]
    ensures InIdOrder([h] + r, ids)
  {
    var r' := [h] + r;
    forall i, j | 0 <= i < j < |r'|
      ensures Before(ids, StringOf(r'[i]), StringOf(r'[j]))
    {
      var b := StringOf(r[j - 1]);
      assert StringOf(r'[j]) == b;
      if i == 0 {
        BeforeFirst(ids, b);
      } else {
        OrderPair(r, ids, i - 1, j - 1);
        assert StringOf(r'[i]) == StringOf(r[i - 1]);
      }
    }
  }

  lemma OrderPair(r: seq<Value>, ids: seq<string>, a: nat, b: nat)
    requires InIdOrder(r, ids) && a < b < |r|
    ensures Before(ids, StringOf(r[a]), StringOf(r[b]))
  {
  }

  lemma BeforeFirst(ids: seq<string>, b: string)
    requires NoDup(ids) && |ids| > 0 && b in ids[1..]
    ensures Before(ids, ids[0], b)
  {
    FirstIndexTail(ids, b);
  }

  /** An id after the first, in ids without repeats, sits one place further on
      than in the tail. */
  lemma FirstIndexTail(ids: seq<string>, x: string)
    requires NoDup(ids) && |ids| > 0 && x in ids[1..]
    ensures x in ids && FirstIndex(ids, x) == 1 + FirstIndex(ids[1..], x)
  {
    var k :| 0 <= k < |ids[1..]| && ids[1..][k] == x;
    assert ids[k + 1] == x;
  }

  lemma FilterSound(ids: seq<string>, keep: Value -> bool)
    ensures var r := FilterValues(KeyValues(ids), keep);
      forall i :: 0 <= i < |r| ==> StringOf(r[i]) in ids
  {
    FilterInTexts(KeyValues(ids), keep);
    TextsOfKeys(ids);
  }

  /** What a filter keeps prints as one of the texts it started from. */
  lemma FilterInTexts(vs: seq<Value>, keep: Value -> bool)
    ensures var r := FilterValues(vs, keep);
      forall i :: 0 <= i < |r| ==> StringOf(r[i]) in Texts(vs)
  {
    var r := FilterValues(vs, keep);
    var t := Texts(vs);
    forall i | 0 <= i < |r|
      ensures StringOf(r[i]) in t
    {
      var j :| 0 <= j < |vs| && vs[j] == r[i];
      assert t[j] == StringOf(vs[j]);
    }
  }

  /** The keys read back as values print as the keys. */
  lemma TextsOfKeys(ids: seq<string>)
    ensures Texts(KeyValues(ids)) == ids
  {
    var t := Texts(KeyValues(ids));
    forall i | 0 <= i < |ids|
      ensures t[i] == ids[i]
    {
      assert KeyValues(ids)[i] == KeyValue(ids[i]);
    }
  }

  lemma FilterComplete(ids: seq<string>, keep: Value -> bool)
    ensures var r := FilterValues(KeyValues(ids), keep);
      forall i :: 0 <= i < |ids| && keep(KeyValue(ids[i])) ==> ids[i] in Texts(r)
  {
    var vs := KeyValues(ids);
    var r := FilterValues(vs, keep);
    var t := Texts(r);
    forall i | 0 <= i < |ids| && keep(KeyValue(ids[i]))
      ensures ids[i] in t
    {
      assert vs[i] in r;
      var j :| 0 <= j < |r| && r[j] == vs[i];
      assert t[j] == StringOf(vs[i]);
    }
  }

  lemma TextsSlice(vs: seq<Value>, offset: int, length: Option<int>)
    ensures Texts(ArraySlice(vs, offset, length)) == ArraySlice(Texts(vs), offset, length)
  {
    var r := ArraySlice(vs, offset, length);
    ArraySliceIsRun(vs, offset, length);
    ArraySliceIsRun(Texts(vs), offset, length);
  }

  /** Filtering with a test that accepts everything gives a list over the same
      ids in the same order. */
  lemma FilterAllKeepsIds(ids: seq<string>)
    requires NoDup(ids)
    ensures Dedup(Texts(Apply(ids, Filter(_ => true)).values)) == ids
  {
    var vs := KeyValues(ids);
    FilterAllIsIdentity(vs);
    KeysRoundTrip(ids);
  }

  lemma {:induction false} FilterAllIsIdentity(vs: seq<Value>)
    ensures FilterValues(vs, _ => true) == vs
  {
    if |vs| > 0 {
      FilterAllIsIdentity(vs[1..]);
    }
  }

  // ---------------------------------------------------------------------------
  // The list

  class ModelList {
    /** The class of the elements. */
    const schema: Schema
    /** The keys of $data, in order. */
    var ids: seq<string>
    /** The values of $data: an instance once it has been read, null before. */
    var slots: seq<Option<Entity>>
    /** The internal array pointer of $data; |ids| stands for past the end. */
    var cursor: nat
    /** $pointer. */
    var pointer: nat

    /** The two positions move together: the array pointer is $pointer, held at
        the end once $pointer has passed it. */
    ghost predicate Valid()
      reads this
    {
      |slots| == |ids| && NoDup(ids) && cursor == (if pointer < |ids| then pointer else |ids|)
    }

    /** new ModelList($class, $data). */
    constructor (schema: Schema, data: seq<Value>)
      ensures Valid()
      ensures this.schema == schema && ids == Dedup(Texts(data))
      ensures |slots| == |ids| && forall i :: 0 <= i < |slots| ==> slots[i].None?
      ensures cursor == 0 && pointer == 0
    {
      this.schema := schema;
      ids := Dedup(Texts(data));
      slots := seq(|Dedup(Texts(data))|, _ => None);
      cursor := 0;
      pointer := 0;
      DedupSpec(Texts(data));
    }

    /** current(): the element under the array pointer, made on first read from
        its key and kept; past the end, PHP's current() gives false (None). */
    method Current() returns (r: Option<Entity>)
      requires Valid()
      modifies this`slots
      ensures Valid()
      ensures cursor == |ids| ==> r.None? && slots == old(slots)
      ensures cursor < |ids| ==> r.Some? && slots == old(slots)[cursor := r]
      ensures cursor < |ids| && old(slots[cursor]).Some? ==> r == old(slots[cursor])
      ensures cursor < |ids| && old(slots[cursor]).None? ==>
        fresh(r.value) && r.value.schema == schema && r.value.State() == Constructed(schema, KeyValue(ids[cursor]))
    {
      if cursor == |ids| {
        return None;
      }
      r := slots[cursor];
      if r.None? {
        var e := new Entity(schema, KeyValue(ids[cursor]));
        r := Some(e);
        slots := slots[cursor := r];
      }
    }

    /** key(): the position, not the id. */
    function Key(): (k: nat)
      reads this
      ensures Valid() && k < |ids| ==> k == cursor
    {
      pointer
    }

    /** next(): both positions move one step on, and the new current element is
        returned. */
    method Next() returns (r: Option<Entity>)
      requires Valid()
      modifies this`slots, this`cursor, this`pointer
      ensures Valid() && ids == old(ids)
      ensures pointer == old(pointer) + 1
      ensures cursor < |ids| ==> r.Some? && slots == old(slots)[cursor := r]
      ensures cursor < |ids| && old(slots)[cursor].Some? ==> r == old(slots)[cursor]
      ensures cursor < |ids| && old(slots)[cursor].None? ==>
        fresh(r.value) && r.value.schema == schema && r.value.State() == Constructed(schema, KeyValue(ids[cursor]))
      ensures cursor == |ids| ==> r.None? && slots == old(slots)
    {
      if cursor < |ids| {
        cursor := cursor + 1;
      }
      pointer := pointer + 1;
      r := Current();
    }

    /** rewind(). */
    method Rewind()
      requires Valid()
      modifies this`cursor, this`pointer
      ensures Valid() && cursor == 0 && pointer == 0
    {
      cursor := 0;
      pointer := 0;
    }

    /** valid(): the position is still inside the list, which is exactly when
        the array pointer is on an element. */
    predicate IsValid()
      reads this
      ensures Valid() ==> (IsValid() <==> cursor < |ids|)
    {
      pointer < |ids|
    }

    /** __invoke($offset): array_slice($data, $offset, 1) picks the element; an
        empty slice gives null. The element is made on first access and kept. */
    method Invoke(offset: int) returns (r: Option<Entity>)
      requires Valid()
      modifies this`slots
      ensures Valid()
      ensures r.None? <==> ArraySlice(ids, offset, Some(1)) == []
      ensures r.None? ==> slots == old(slots)
      ensures r.Some? ==> var p := SliceStart(|ids|, offset);
        p < |ids| && ArraySlice(ids, offset, Some(1)) == [ids[p]] && slots == old(slots)[p := r] &&
        (old(slots[p]).Some? ==> r == old(slots[p])) &&
        (old(slots[p]).None? ==> fresh(r.value) && r.value.State() == Constructed(schema, KeyValue(ids[p])))
    {
      if ArraySlice(ids, offset, Some(1)) == [] {
        return None;
      }
      var p := SliceStart(|ids|, offset);
      r := slots[p];
      if r.None? {
        var e := new Entity(schema, KeyValue(ids[p]));
        r := Some(e);
        slots := slots[p := r];
      }
    }

    /** __toString(): the ids joined with commas. */
    function ToString(): string
      reads this
    {
      Join(",", ids)
    }

    /** __call: an array result becomes a new list of the same class, a scalar is
        returned as it is. */
    method Call(t: Transform) returns (r: CallResult)
      ensures Apply(ids, t).Scalar? ==> r == Returned(Apply(ids, t).value)
      ensures Apply(ids, t).Ids? ==>
        && r.NewList? && fresh(r.list) && r.list.Valid()
        && r.list.schema == schema && r.list.ids == Dedup(Texts(Apply(ids, t).values))
        && r.list.cursor == 0 && r.list.pointer == 0
    {
      var o := Apply(ids, t);
      if o.Scalar? {
        return Returned(o.value);
      }
      var list := new ModelList(schema, o.values);
      r := NewList(list);
    }
  }

  /** The result of __call. */
  datatype CallResult = Returned(value: Value) | NewList(list: ModelList)

  /** The comma-joined ids split back into the ids, when no id holds a comma. */
  lemma ToStringSplits(l: ModelList)
    requires |l.ids| > 0 && forall i :: 0 <= i < |l.ids| ==> ',' !in l.ids[i]
    ensures Split(l.ToString(), ',') == l.ids
  {
    SplitJoin(l.ids, ',');
  }
}

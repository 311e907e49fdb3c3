/** The Redis wrapper: lSlice, which turns array_slice-style (offset, length)
    arguments into the inclusive start/stop indices of LRANGE, and the batching
    rule of the push commands. A Redis list is a sequence of strings. */
module Cache {
  import opened Php

  /** LRANGE key start stop: negative indices count from the end; a start still
      below 0 becomes 0, a stop past the end becomes the last index, and an
      empty range gives nothing. */
  function LRange(list: seq<string>, start: int, stop: int): (r: seq<string>)
    ensures |r| <= |list|
  {
    var n := |list|;
    var s := if start < 0 then (if n + start < 0 then 0 else n + start) else start;
    var e := if stop < 0 then n + stop else stop;
    if s > e || s >= n then []
    else list[s..if e >= n then n else e + 1]
  }

  /** LRANGE with non-negative indices reads the inclusive run between them,
      cut at the end of the list. */
  lemma LRangeRun(list: seq<string>, start: nat, stop: nat)
    ensures LRange(list, start, stop) ==
      if start > stop || start >= |list| then [] else list[start..Min(stop + 1, |list|)]
  {
  }

  function Min(a: int, b: int): int { if a <= b then a else b }

  /** lSlice($key, $start, $length) on the list stored at the key. The size is
      only asked for when start or length is negative; a negative start is
      rebased on it once here and the result is handed to LRANGE, which rebases a
      still-negative start again. A negative length reads up to index
      size + start. */
  function LSlice(list: seq<string>, start: int, length: Option<int>): (r: seq<string>)
    ensures length == Some(0) ==> r == []
  {
    var size := |list|;
    var s := if start < 0 then size + start else start;
    match length
    case None => LRange(list, s, -1)
    case Some(len) =>
      if len > 0 then LRange(list, s, s + len - 1)
      else if len < 0 then LRange(list, s, size + s)
      else []
  }

  /** A null length reads from the start through the end of the list. */
  lemma LSliceToEnd(list: seq<string>, start: int)
    requires -|list| <= start <= |list|
    ensures LSlice(list, start, None) == list[if start < 0 then |list| + start else start..]
  {
  }

  /** A positive length reads the inclusive run [start, start + length - 1], so
      never more than `length` elements. */
  lemma LSlicePositive(list: seq<string>, start: nat, len: int)
    requires len > 0 && start <= |list|
    ensures LSlice(list, start, Some(len)) == list[start..Min(start + len, |list|)]
    ensures |LSlice(list, start, Some(len))| <= len
  {
  }

  /** A negative length with a start inside the list reads through the end,
      whatever the length. */
  lemma LSliceNegativeReachesEnd(list: seq<string>, start: nat, len: int)
    requires len < 0 && start <= |list|
    ensures LSlice(list, start, Some(len)) == list[start..]
  {
  }

  /** Where they agree: with a null, zero or positive length and a start no
      further back than the list is long, lSlice is array_slice. */
  lemma LSliceIsArraySlice(list: seq<string>, start: int, length: Option<int>)
    requires start >= -|list|
    requires length.None? || length.value >= 0
    ensures LSlice(list, start, length) == ArraySlice(list, start, length)
  {
  }

  /** As written, a negative length does not stop before the end:
      lSlice([a, b, c, d, e], 0, -1) returns all five elements, where
      array_slice returns four. */
  lemma LSliceNegativeLengthOverreads()
    ensures var list := ["a", "b", "c", "d", "e"];
      LSlice(list, 0, Some(-1)) == list && ArraySlice(list, 0, Some(-1)) == list[..4]
  {
  }

  /** As written, a start further back than the list is long is rebased twice:
      lSlice([a, b, c, d, e], -7, null) reads from index 3, where array_slice
      reads from index 0. */
  lemma LSliceFarStartRebasedTwice()
    ensures var list := ["a", "b", "c", "d", "e"];
      LSlice(list, -7, None) == ["d", "e"] && ArraySlice(list, -7, None) == list
  {
  }

  /** lSlice as evidently intended: the start is rebased once and clamped at 0,
      and a negative length stops that many elements before the end. */
  function LSliceIntended(list: seq<string>, start: int, length: Option<int>): (r: seq<string>)
    ensures r == ArraySlice(list, start, length)
  {
    var size := |list|;
    var s := if start < 0 then (if size + start < 0 then 0 else size + start) else start;
    match length
    case None => LRange(list, s, size - 1)
    case Some(len) =>
      if len > 0 then LRange(list, s, s + len - 1)
      else if len < 0 then (if size + len - 1 < s then [] else LRange(list, s, size + len - 1))
      else []
  }

  /** The push commands that take several values. */
  datatype PushCommand = LPush | RPush | LPushX | RPushX

  /** The values __call hands on for rPush/lPush/rPushx/lPushx: an empty value
      becomes one null, an array its values in order, anything else itself.
      Redis stores each as its string form. */
  function PushValues(value: Value): (vs: seq<string>)
    requires !value.Obj?
    ensures |vs| >= 1
    ensures Empty(value) ==> vs == [""]
    ensures value.Arr? && |value.entries| > 0 ==>
      |vs| == |value.entries| && forall i :: 0 <= i < |vs| ==> vs[i] == StringOf(value.entries[i].1)
    ensures !Empty(value) && !value.Arr? ==> vs == [StringOf(value)]
  {
    if Empty(value) then [""]
    else match value
      case Arr(e) => ArrayValues(e)
      case _ => [StringOf(value)]
  }

  function ArrayValues(e: seq<(string, Value)>): (vs: seq<string>)
    ensures |vs| == |e| && forall i :: 0 <= i < |e| ==> vs[i] == StringOf(e[i].1)
  {
    if |e| == 0 then [] else [StringOf(e[0].1)] + ArrayValues(e[1..])
  }

  function Reverse<T>(s: seq<T>): (r: seq<T>)
    ensures |r| == |s| && forall i :: 0 <= i < |s| ==> r[i] == s[|s| - 1 - i]
  {
    if |s| == 0 then [] else Reverse(s[1..]) + [s[0]]
  }

  /** A push of several values as Redis applies it: LPUSH puts each value at the
      head in turn, so they end up in reverse order in front of the list; RPUSH
      appends them in order; the X variants do nothing on a missing key. */
  function Push(store: map<string, seq<string>>, cmd: PushCommand, key: string, vs: seq<string>): (r: map<string, seq<string>>)
    ensures r.Keys == if (cmd.LPushX? || cmd.RPushX?) && key !in store then store.Keys else store.Keys + {key}
    ensures forall k :: k in store && k != key ==> k in r && r[k] == store[k]
  {
    var before := if key in store then store[key] else [];
    if (cmd.LPushX? || cmd.RPushX?) && key !in store then store
    else if cmd.LPush? || cmd.LPushX? then store[key := Reverse(vs) + before]
    else store[key := before + vs]
  }

  /** lPush onto a missing key stores the values last first: reading the list
      back from index 0 gives them in reverse. */
  lemma LPushReverses(store: map<string, seq<string>>, key: string, vs: seq<string>)
    requires key !in store
    ensures var r := Push(store, LPush, key, vs);
      key in r && Reverse(r[key]) == vs
  {
    ReverseReverse(vs);
  }

  lemma {:induction false} ReverseReverse<T>(s: seq<T>)
    ensures Reverse(Reverse(s)) == s
  {
    if |s| > 0 {
      ReverseAppend(Reverse(s[1..]), [s[0]]);
      ReverseReverse(s[1..]);
      assert [s[0]] + s[1..] == s;
    }
  }

  lemma ReverseAppend<T>(a: seq<T>, b: seq<T>)
    ensures Reverse(a + b) == Reverse(b) + Reverse(a)
  {
  }
}

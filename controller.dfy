/** The controller's asset queue: stylesheets and scripts enqueued with a
    priority, written into the page head in priority order, stylesheets
    first; and the controller's name as __toString gives it. */
module Controllers {
  import opened Php
  import opened Assoc

  /** An enqueued asset: its link and its priority. */
  type Asset = (string, int)

  /** Priorities never decrease along the queue. */
  predicate Sorted(q: seq<Asset>)
  {
    forall i, j :: 0 <= i < j < |q| ==> q[i].1 <= q[j].1
  }

  /** Places an asset after every asset of no greater priority. */
  function Insert(x: Asset, q: seq<Asset>): (r: seq<Asset>)
    ensures |r| == |q| + 1
  {
    if |q| == 0 then [x]
    else if x.1 < q[0].1 then [x] + q
    else [q[0]] + Insert(x, q[1..])
  }

  /** asort on a queue: by priority, equal priorities in queue order. */
  function SortByPriority(q: seq<Asset>): (r: seq<Asset>)
    ensures |r| == |q|
  {
    if |q| == 0 then [] else Insert(q[|q| - 1], SortByPriority(q[..|q| - 1]))
  }

  lemma {:induction false} InsertPerm(x: Asset, q: seq<Asset>)
    ensures multiset(Insert(x, q)) == multiset(q) + multiset{x}
    decreases |q|
  {
    if |q| > 0 && x.1 >= q[0].1 {
      InsertPerm(x, q[1..]);
      assert q == [q[0]] + q[1..];
    }
  }

  /** Inserting keeps a lower bound on the priorities. */
  lemma {:induction false} InsertAbove(x: Asset, q: seq<Asset>, lo: int)
    requires lo <= x.1 && forall i :: 0 <= i < |q| ==> lo <= q[i].1
    ensures forall i :: 0 <= i < |Insert(x, q)| ==> lo <= Insert(x, q)[i].1
    decreases |q|
  {
    if |q| > 0 && x.1 >= q[0].1 {
      InsertAbove(x, q[1..], lo);
    }
  }

  lemma {:induction false} InsertSorted(x: Asset, q: seq<Asset>)
    requires Sorted(q)
    ensures Sorted(Insert(x, q))
    decreases |q|
  {
    if |q| > 0 && x.1 >= q[0].1 {
      InsertSorted(x, q[1..]);
      InsertAbove(x, q[1..], q[0].1);
      var r := Insert(x, q[1..]);
      var t := [q[0]] + r;
      forall i, j | 0 <= i < j < |t|
        ensures t[i].1 <= t[j].1
      {
        if i == 0 {
          assert t[j] == r[j - 1];
        } else {
          assert t[i] == r[i - 1] && t[j] == r[j - 1];
        }
      }
    }
  }

  /** The sorted queue is in priority order and holds exactly the enqueued
      assets. */
  lemma {:induction false} SortByPrioritySpec(q: seq<Asset>)
    ensures Sorted(SortByPriority(q))
    ensures multiset(SortByPriority(q)) == multiset(q)
    decreases |q|
  {
    if |q| > 0 {
      var p := q[..|q| - 1];
      SortByPrioritySpec(p);
      InsertSorted(q[|q| - 1], SortByPriority(p));
      InsertPerm(q[|q| - 1], SortByPriority(p));
      assert q == p + [q[|q| - 1]];
    }
  }

  /** A link's tag, by asset type. */
  function StylesheetTag(link: string): (t: string)
    ensures IsStylesheetTag(t)
  {
    "<link rel=\"stylesheet\" href=\"" + link + "\">"
  }

  function ScriptTag(link: string): (t: string)
    ensures IsScriptTag(t)
  {
    "<script type=\"text/javascript\" src=\"" + link + "\"></script>"
  }

  predicate IsStylesheetTag(t: string) { |t| >= 2 && t[0] == '<' && t[1] == 'l' }
  predicate IsScriptTag(t: string) { |t| >= 2 && t[0] == '<' && t[1] == 's' }

  function StylesheetTags(q: seq<Asset>): (r: seq<string>)
    ensures |r| == |q| && forall i :: 0 <= i < |q| ==> r[i] == StylesheetTag(q[i].0)
  {
    seq(|q|, i requires 0 <= i < |q| => StylesheetTag(q[i].0))
  }

  function ScriptTags(q: seq<Asset>): (r: seq<string>)
    ensures |r| == |q| && forall i :: 0 <= i < |q| ==> r[i] == ScriptTag(q[i].0)
  {
    seq(|q|, i requires 0 <= i < |q| => ScriptTag(q[i].0))
  }

  /** What outputEnqueued echoes, one tag per echo. */
  function Output(css: seq<Asset>, js: seq<Asset>): seq<string>
  {
    StylesheetTags(SortByPriority(css)) + ScriptTags(SortByPriority(js))
  }

  /** Every stylesheet tag comes before every script tag. */
  lemma StylesheetsFirst(css: seq<Asset>, js: seq<Asset>)
    ensures var out := Output(css, js);
      |out| == |css| + |js| &&
      (forall i :: 0 <= i < |css| ==> IsStylesheetTag(out[i])) &&
      (forall i :: |css| <= i < |out| ==> IsScriptTag(out[i])) &&
      forall i, j :: 0 <= i < j < |out| ==> !(IsScriptTag(out[i]) && IsStylesheetTag(out[j]))
  {
    var out := Output(css, js);
    OutputPositions(css, js);
    forall i | |css| <= i < |out| ensures IsScriptTag(out[i]) {
      assert out[i] == out[|css| + (i - |css|)];
    }
  }

  /** Within a type, tags come in non-decreasing priority. */
  lemma TagsByPriority(css: seq<Asset>, js: seq<Asset>)
    ensures var out := Output(css, js);
      var sc := SortByPriority(css);
      var sj := SortByPriority(js);
      (forall i :: 0 <= i < |css| ==> out[i] == StylesheetTag(sc[i].0)) &&
      (forall i :: 0 <= i < |js| ==> out[|css| + i] == ScriptTag(sj[i].0)) &&
      Sorted(sc) && Sorted(sj)
  {
    OutputPositions(css, js);
    SortByPrioritySpec(css);
    SortByPrioritySpec(js);
  }

  lemma OutputPositions(css: seq<Asset>, js: seq<Asset>)
    ensures var out := Output(css, js);
      var sc := SortByPriority(css);
      var sj := SortByPriority(js);
      (forall i :: 0 <= i < |css| ==> out[i] == StylesheetTag(sc[i].0)) &&
      (forall i :: 0 <= i < |js| ==> out[|css| + i] == ScriptTag(sj[i].0))
  {
    var out := Output(css, js);
    var styles := StylesheetTags(SortByPriority(css));
    var scripts := ScriptTags(SortByPriority(js));
    assert out == styles + scripts && |styles| == |css|;
    forall i | 0 <= i < |js| ensures out[|css| + i] == scripts[i] {
    }
  }

  lemma {:induction false} InsertLinks(x: Asset, q: seq<Asset>)
    requires Distinct(q) && x.0 !in Keys(q)
    ensures Distinct(Insert(x, q))
    ensures forall k :: k in Keys(Insert(x, q)) <==> k in Keys(q) || k == x.0
    decreases |q|
  {
    if |q| > 0 {
      assert Keys(q) == [q[0].0] + Keys(q[1..]);
      if x.1 < q[0].1 {
        assert Keys([x] + q) == [x.0] + Keys(q);
        assert ([x] + q)[1..] == q;
      } else {
        InsertLinks(x, q[1..]);
        var r := Insert(x, q[1..]);
        assert Keys([q[0]] + r) == [q[0].0] + Keys(r);
        assert ([q[0]] + r)[1..] == r;
      }
    }
  }

  /** In a queue without duplicate links, the sorted queue holds each enqueued
      link exactly once and no other: every link is emitted once. */
  lemma {:induction false} SortKeepsLinks(q: seq<Asset>)
    requires Distinct(q)
    ensures Distinct(SortByPriority(q))
    ensures forall k :: k in Keys(SortByPriority(q)) <==> k in Keys(q)
    decreases |q|
  {
    if |q| > 0 {
      var p := q[..|q| - 1];
      var x := q[|q| - 1];
      assert q == p + [x];
      DistinctSnoc(p, x);
      SortKeepsLinks(p);
      InsertLinks(x, SortByPriority(p));
      KeysSnoc(p, x);
    }
  }

  lemma DistinctSnoc(p: seq<Asset>, x: Asset)
    requires Distinct(p + [x])
    ensures Distinct(p) && x.0 !in Keys(p)
  {
    var q := p + [x];
    DistinctPairs(q);
    DistinctPairs(p);
    assert forall i :: 0 <= i < |p| ==> p[i] == q[i];
    assert q[|p|] == x;
  }

  // ---------------------------------------------------------------------------
  // The controller

  /** A controller: its class name (get_called_class) and the enqueued assets
      by type. Only the queue is modelled of its state. */
  class Controller {
    const className: string
    var enqueued: map<string, seq<Asset>>

    /** The queues are keyed by link. */
    ghost predicate Valid()
      reads this
    {
      "css" in enqueued && "js" in enqueued &&
      forall t :: t in enqueued ==> Distinct(enqueued[t])
    }

    /** A new controller has an empty stylesheet queue and an empty script
        queue. */
    constructor(className: string)
      ensures Valid()
      ensures this.className == className
      ensures enqueued == map["js" := [], "css" := []]
    {
      this.className := className;
      enqueued := map["js" := [], "css" := []];
    }

    /** The queue of one type, empty if nothing of that type was enqueued. */
    function Queue(t: string): seq<Asset>
      reads this
    {
      if t in enqueued then enqueued[t] else []
    }

    /** enqueue($type, $link, $priority): the link's priority is set, replacing
        any earlier one; the link keeps its place in the queue. */
    method Enqueue(t: string, link: string, priority: int)
      requires Valid()
      modifies this`enqueued
      ensures Valid()
      ensures enqueued == old(enqueued)[t := Put(old(Queue(t)), link, priority)]
      ensures Get(Queue(t), link) == Some(priority)
      ensures forall k :: k != link ==> Get(Queue(t), k) == Get(old(Queue(t)), k)
    {
      var q := Queue(t);
      PutDistinct(q, link, priority);
      enqueued := enqueued[t := Put(q, link, priority)];
    }

    /** outputEnqueued(): both queues sorted in place by priority, then one tag
        per stylesheet and one per script, echoed in that order. */
    method OutputEnqueued() returns (out: seq<string>)
      requires Valid()
      modifies this`enqueued
      ensures Valid()
      ensures enqueued == old(enqueued)["css" := SortByPriority(old(enqueued)["css"])]["js" := SortByPriority(old(enqueued)["js"])]
      ensures out == Output(old(enqueued)["css"], old(enqueued)["js"])
    {
      var css := SortByPriority(enqueued["css"]);
      var js := SortByPriority(enqueued["js"]);
      SortKeepsLinks(enqueued["css"]);
      SortKeepsLinks(enqueued["js"]);
      enqueued := enqueued["css" := css]["js" := js];
      var stylesheets := EchoStylesheets(css);
      var scripts := EchoScripts(js);
      assert stylesheets == StylesheetTags(css) && scripts == ScriptTags(js);
      out := stylesheets + scripts;
    }

    /** __toString(): the class name without "Controller", in lower case. */
    function ToString(): (s: string)
    {
      ToLower(RemoveAll(className, "Controller"))
    }
  }

  /** The stylesheet loop of outputEnqueued: one tag per queued link, in
      queue order. */
  method EchoStylesheets(q: seq<Asset>) returns (out: seq<string>)
    ensures |out| == |q| && forall i :: 0 <= i < |q| ==> out[i] == StylesheetTag(q[i].0)
  {
    out := [];
    for i := 0 to |q|
      invariant |out| == i && forall j :: 0 <= j < i ==> out[j] == StylesheetTag(q[j].0)
    {
      out := out + [StylesheetTag(q[i].0)];
    }
  }

  /** The script loop of outputEnqueued. */
  method EchoScripts(q: seq<Asset>) returns (out: seq<string>)
    ensures |out| == |q| && forall i :: 0 <= i < |q| ==> out[i] == ScriptTag(q[i].0)
  {
    out := [];
    for i := 0 to |q|
      invariant |out| == i && forall j :: 0 <= j < i ==> out[j] == ScriptTag(q[j].0)
    {
      out := out + [ScriptTag(q[i].0)];
    }
  }

  /** Before anything is enqueued, nothing is output. */
  method NothingEnqueued(className: string) returns (out: seq<string>)
    ensures out == []
  {
    var c := new Controller(className);
    out := c.OutputEnqueued();
    assert Output([], []) == [];
  }

  /** str_replace($pattern, '', $s): every occurrence, scanning left to right,
      removed in one pass. */
  function RemoveAll(s: string, pattern: string): (r: string)
    requires |pattern| > 0
    ensures |r| <= |s|
  {
    if |s| == 0 then ""
    else if |s| >= |pattern| && s[..|pattern|] == pattern then RemoveAll(s[|pattern|..], pattern)
    else [s[0]] + RemoveAll(s[1..], pattern)
  }

  /** Text without the pattern's first character is left as it is. */
  lemma {:induction false} RemoveAllAbsent(s: string, pattern: string)
    requires |pattern| > 0 && pattern[0] !in s
    ensures RemoveAll(s, pattern) == s
  {
    if |s| > 0 {
      assert s[0] != pattern[0];
      RemoveAllAbsent(s[1..], pattern);
      assert [s[0]] + s[1..] == s;
    }
  }

  /** `pattern` does not occur anywhere in `s`. */
  predicate NoOccurrence(s: string, pattern: string)
  {
    forall i :: 0 <= i <= |s| ==> !(pattern <= s[i..])
  }

  /** The naming convention: a class named <Name>Controller, where Name does not
      itself hold "Controller", is known by Name. No occurrence can straddle the
      seam, because the only 'C' of "Controller" is its first letter. */
  lemma {:induction false} ConventionalName(name: string)
    requires NoOccurrence(name, "Controller")
    ensures RemoveAll(name + "Controller", "Controller") == name
    decreases |name|
  {
    var s := name + "Controller";
    if |name| == 0 {
      assert s == "Controller";
      assert s[10..] == "";
    } else {
      NotAtFront(name);
      assert s[1..] == name[1..] + "Controller";
      NoOccurrenceTail(name, "Controller");
      ConventionalName(name[1..]);
      assert [name[0]] + name[1..] == name;
    }
  }

  /** "Controller" does not start a name that does not hold it, even with the
      suffix appended. */
  lemma NotAtFront(name: string)
    requires |name| > 0 && NoOccurrence(name, "Controller")
    ensures (name + "Controller")[..10] != "Controller"
  {
    var s := name + "Controller";
    if |name| >= 10 {
      assert name[0..] == name;
      assert s[..10] == name[..10];
    } else {
      assert s[|name|] == 'C';
      assert "Controller"[|name|] != 'C';
    }
  }

  lemma NoOccurrenceTail(s: string, pattern: string)
    requires |s| > 0 && NoOccurrence(s, pattern)
    ensures NoOccurrence(s[1..], pattern)
  {
    forall i | 0 <= i <= |s[1..]|
      ensures !(pattern <= s[1..][i..])
    {
      assert s[1..][i..] == s[i + 1..];
    }
  }

  /** __toString of a conventionally named controller: a controller of class
      <Name>Controller, where Name does not itself hold "Controller", is known
      by the lower-case Name. */
  lemma ToStringOfConventionalName(c: Controller, name: string)
    requires NoOccurrence(name, "Controller") && c.className == name + "Controller"
    ensures c.ToString() == ToLower(name)
  {
    ConventionalName(name);
  }

  /** CartController is known as "cart": a capital C in Name is no obstacle. */
  lemma CartControllerName(c: Controller)
    requires c.className == "CartController"
    ensures c.ToString() == "cart"
  {
    var name := "Cart";
    assert c.className == name + "Controller";
    assert NoOccurrence(name, "Controller");
    ToStringOfConventionalName(c, name);
    assert ToLower(name) == "cart";
  }
}

/** What Model::factoryCleanup and Model::factoryReset leave in a class's part
    of the identity map, stated on the entries in insertion order together with
    each entry's isModified() flag. */
module Eviction {
  import opened Php
  import opened Assoc

  /** factoryCleanup trims a class down to this many entries (core/model.php:62,67). */
  const Limit: nat := 99

  function Min(a: nat, b: nat): nat { if a <= b then a else b }

  /** How many entries are unmodified, hence evictable. */
  function CleanCount(dirty: seq<bool>): (n: nat)
    ensures n <= |dirty|
  {
    if |dirty| == 0 then 0 else (if dirty[0] then 0 else 1) + CleanCount(dirty[1..])
  }

  /** The modified entries, in their order: what factoryReset keeps. */
  function KeepDirty<T>(s: seq<T>, dirty: seq<bool>): seq<T>
    requires |s| == |dirty|
  {
    if |s| == 0 then [] else (if dirty[0] then [s[0]] else []) + KeepDirty(s[1..], dirty[1..])
  }

  /** Walk the entries in insertion order and drop unmodified ones while `budget`
      removals remain; modified entries are stepped over. */
  function Evict<T>(s: seq<T>, dirty: seq<bool>, budget: nat): seq<T>
    requires |s| == |dirty|
  {
    if budget == 0 || |s| == 0 then s
    else if dirty[0] then [s[0]] + Evict(s[1..], dirty[1..], budget)
    else Evict(s[1..], dirty[1..], budget - 1)
  }

  /** What factoryCleanup leaves: nothing happens at or under the limit; above it,
      as many unmodified entries as the excess are evicted, oldest first. */
  function Cleanup<T>(s: seq<T>, dirty: seq<bool>): seq<T>
    requires |s| == |dirty|
  {
    if |s| > Limit then Evict(s, dirty, |s| - Limit) else s
  }

  /** Where the eviction walk stops: just after the last entry it removed. */
  function Cut(dirty: seq<bool>, budget: nat): (c: nat)
    ensures c <= |dirty|
  {
    if budget == 0 || |dirty| == 0 then 0
    else if dirty[0] then 1 + Cut(dirty[1..], budget)
    else 1 + Cut(dirty[1..], budget - 1)
  }

  lemma {:induction false} KeepDirtyAppend<T>(a: seq<T>, da: seq<bool>, b: seq<T>, db: seq<bool>)
    requires |a| == |da| && |b| == |db|
    ensures KeepDirty(a + b, da + db) == KeepDirty(a, da) + KeepDirty(b, db)
  {
    if |a| > 0 {
      assert (a + b)[1..] == a[1..] + b && (da + db)[1..] == da[1..] + db;
      KeepDirtyAppend(a[1..], da[1..], b, db);
    } else {
      assert a + b == b && da + db == db;
    }
  }

  lemma {:induction false} CleanCountAppend(da: seq<bool>, db: seq<bool>)
    ensures CleanCount(da + db) == CleanCount(da) + CleanCount(db)
  {
    if |da| > 0 {
      assert (da + db)[1..] == da[1..] + db;
      CleanCountAppend(da[1..], db);
    } else {
      assert da + db == db;
    }
  }

  /** The shape of an eviction: before the cut every unmodified entry is gone and
      every modified one kept; from the cut on nothing is touched. Exactly
      min(budget, unmodified entries) entries are removed. */
  lemma {:induction false} EvictShape<T>(s: seq<T>, dirty: seq<bool>, budget: nat)
    requires |s| == |dirty|
    ensures var c := Cut(dirty, budget);
      && Evict(s, dirty, budget) == KeepDirty(s[..c], dirty[..c]) + s[c..]
      && CleanCount(dirty[..c]) == Min(budget, CleanCount(dirty))
  {
    var c := Cut(dirty, budget);
    if budget == 0 || |s| == 0 {
      assert s[..0] == [] && dirty[..0] == [];
    } else {
      var b' := if dirty[0] then budget else budget - 1;
      var c' := Cut(dirty[1..], b');
      EvictShape(s[1..], dirty[1..], b');
      var head := if dirty[0] then [s[0]] else [];
      var kept := KeepDirty(s[1..][..c'], dirty[1..][..c']);
      assert c == c' + 1;
      assert s[..c][1..] == s[1..][..c'] && dirty[..c][1..] == dirty[1..][..c'];
      assert KeepDirty(s[..c], dirty[..c]) == head + kept;
      assert CleanCount(dirty[..c]) == (if dirty[0] then 0 else 1) + CleanCount(dirty[1..][..c']);
      assert s[c..] == s[1..][c'..];
      AppendAssoc(head, kept, s[c..]);
    }
  }

  /** Eviction never removes a modified entry. */
  lemma EvictKeepsModified<T>(s: seq<T>, dirty: seq<bool>, budget: nat, i: nat)
    requires |s| == |dirty| && i < |s| && dirty[i]
    ensures s[i] in Evict(s, dirty, budget)
  {
    var c := Cut(dirty, budget);
    EvictShape(s, dirty, budget);
    if i < c {
      KeepDirtyAppend(s[..i], dirty[..i], s[i..c], dirty[i..c]);
      assert s[..i] + s[i..c] == s[..c] && dirty[..i] + dirty[i..c] == dirty[..c];
      assert s[i..c][1..] == s[i + 1..c] && dirty[i..c][1..] == dirty[i + 1..c];
      assert KeepDirty(s[i..c], dirty[i..c]) == [s[i]] + KeepDirty(s[i + 1..c], dirty[i + 1..c]);
    } else {
      assert s[c..][i - c] == s[i];
    }
  }

  /** How many entries eviction removes. */
  lemma EvictCount<T>(s: seq<T>, dirty: seq<bool>, budget: nat)
    requires |s| == |dirty|
    ensures |Evict(s, dirty, budget)| == |s| - Min(budget, CleanCount(dirty))
  {
    var c := Cut(dirty, budget);
    EvictShape(s, dirty, budget);
    KeepDirtySize(s[..c], dirty[..c]);
  }

  lemma {:induction false} KeepDirtySize<T>(s: seq<T>, dirty: seq<bool>)
    requires |s| == |dirty|
    ensures |KeepDirty(s, dirty)| == |s| - CleanCount(dirty)
  {
    if |s| > 0 {
      KeepDirtySize(s[1..], dirty[1..]);
    }
  }

  /** factoryCleanup: untouched at or under the limit; above it the class ends at
      the limit, or above it only by modified entries that could not be evicted. */
  lemma CleanupSize<T>(s: seq<T>, dirty: seq<bool>)
    requires |s| == |dirty|
    ensures |s| <= Limit ==> Cleanup(s, dirty) == s
    ensures |s| > Limit ==>
      |Cleanup(s, dirty)| == (if |s| - CleanCount(dirty) >= Limit then |s| - CleanCount(dirty) else Limit)
  {
    if |s| > Limit {
      EvictCount(s, dirty, |s| - Limit);
    }
  }

  /** factoryReset is an eviction with no budget limit. */
  lemma {:induction false} ResetIsUnboundedEviction<T>(s: seq<T>, dirty: seq<bool>, budget: nat)
    requires |s| == |dirty| && budget >= CleanCount(dirty)
    ensures KeepDirty(s, dirty) == Evict(s, dirty, budget)
  {
    if |s| > 0 {
      if budget == 0 {
        KeepDirtyAllDirty(s, dirty);
      } else {
        ResetIsUnboundedEviction(s[1..], dirty[1..], if dirty[0] then budget else budget - 1);
      }
    }
  }

  lemma {:induction false} KeepDirtyAllDirty<T>(s: seq<T>, dirty: seq<bool>)
    requires |s| == |dirty| && CleanCount(dirty) == 0
    ensures KeepDirty(s, dirty) == s
  {
    if |s| > 0 {
      KeepDirtyAllDirty(s[1..], dirty[1..]);
    }
  }

  /** factoryReset keeps every modified entry, and only those. */
  lemma KeepDirtyExact<T>(s: seq<T>, dirty: seq<bool>, i: nat)
    requires |s| == |dirty| && i < |s|
    ensures dirty[i] ==> s[i] in KeepDirty(s, dirty)
    ensures |KeepDirty(s, dirty)| == |s| - CleanCount(dirty)
  {
    KeepDirtySize(s, dirty);
    if dirty[i] {
      ResetIsUnboundedEviction(s, dirty, |s|);
      EvictKeepsModified(s, dirty, |s|, i);
    }
  }

  /** One step of the eviction walk at position i with removals left. */
  lemma EvictAdvance<T>(s: seq<T>, dirty: seq<bool>, i: nat, budget: nat)
    requires |s| == |dirty| && i < |s| && budget > 0
    ensures KeepDirty(s[..i + 1], dirty[..i + 1]) ==
            KeepDirty(s[..i], dirty[..i]) + (if dirty[i] then [s[i]] else [])
    ensures Evict(s[i..], dirty[i..], budget) ==
            if dirty[i] then [s[i]] + Evict(s[i + 1..], dirty[i + 1..], budget)
            else Evict(s[i + 1..], dirty[i + 1..], budget - 1)
  {
    KeepDirtyAppend(s[..i], dirty[..i], [s[i]], [dirty[i]]);
    assert s[..i + 1] == s[..i] + [s[i]] && dirty[..i + 1] == dirty[..i] + [dirty[i]];
    assert s[i..][1..] == s[i + 1..] && dirty[i..][1..] == dirty[i + 1..];
  }

  /** A registry slot list in the middle of the walk: the kept part of the
      first i entries, then the entries not yet visited. Dropping entry i when
      it is unmodified extends the kept part by nothing. */
  lemma DropStep<V>(cur: seq<(string, V)>, s: seq<(string, V)>, dirty: seq<bool>, i: nat)
    requires |s| == |dirty| && i < |s| && !dirty[i]
    requires Distinct(cur) && cur == KeepDirty(s[..i], dirty[..i]) + s[i..]
    ensures var r := Delete(cur, s[i].0);
      r == KeepDirty(s[..i + 1], dirty[..i + 1]) + s[i + 1..] && Distinct(r) && |r| == |cur| - 1
  {
    var kept := KeepDirty(s[..i], dirty[..i]);
    var p := |kept|;
    assert cur[p] == s[i];
    DeleteAt(cur, p);
    DistinctRemove(cur, p);
    assert cur[..p] == kept && cur[p + 1..] == s[i + 1..];
    EvictAdvance(s, dirty, i, 1);
  }

  /** Stepping over a modified entry i extends the kept part by that entry. */
  lemma KeepStep<V>(cur: seq<(string, V)>, s: seq<(string, V)>, dirty: seq<bool>, i: nat)
    requires |s| == |dirty| && i < |s| && dirty[i]
    requires cur == KeepDirty(s[..i], dirty[..i]) + s[i..]
    ensures cur == KeepDirty(s[..i + 1], dirty[..i + 1]) + s[i + 1..]
  {
    EvictAdvance(s, dirty, i, 1);
    assert s[i..] == [s[i]] + s[i + 1..];
  }

  /** At the end of the walk the kept part is everything that is left. */
  lemma WalkDone<V>(s: seq<V>, dirty: seq<bool>)
    requires |s| == |dirty|
    ensures KeepDirty(s[..|s|], dirty[..|dirty|]) + s[|s|..] == KeepDirty(s, dirty)
  {
    assert s[..|s|] == s && dirty[..|dirty|] == dirty && s[|s|..] == [];
  }

  /** The walk's position i during an eviction with `total` removals, `budget`
      of them still to do. */
  ghost predicate EvictAt<V>(cur: seq<(string, V)>, s: seq<(string, V)>, dirty: seq<bool>, i: nat, budget: nat, total: nat)
    requires |s| == |dirty| && i <= |s|
  {
    && cur == KeepDirty(s[..i], dirty[..i]) + s[i..]
    && Evict(s, dirty, total) == KeepDirty(s[..i], dirty[..i]) + Evict(s[i..], dirty[i..], budget)
  }

  /** The walk can stop once the budget is spent, or at the end of the list. */
  lemma EvictStop<V>(cur: seq<(string, V)>, s: seq<(string, V)>, dirty: seq<bool>, i: nat, budget: nat, total: nat)
    requires |s| == |dirty| && i <= |s| && (budget == 0 || i == |s|)
    requires EvictAt(cur, s, dirty, i, budget, total)
    ensures cur == Evict(s, dirty, total)
  {
    if i == |s| {
      WalkDone(s, dirty);
    }
  }

  /** The walk starts with nothing kept and everything still to visit. */
  lemma EvictStart<V>(s: seq<(string, V)>, dirty: seq<bool>, total: nat)
    requires |s| == |dirty|
    ensures EvictAt(s, s, dirty, 0, total, total)
  {
    assert s[..0] == [] && dirty[..0] == [] && s[0..] == s && dirty[0..] == dirty;
  }

  /** Visiting entry j - 1 with removals left extends the walk by one position. */
  lemma {:induction false} WalkPrefix<V>(s: seq<(string, V)>, dirty: seq<bool>, j: nat, total: nat)
    requires |s| == |dirty| && j <= |s|
    requires CleanCount(dirty[..j]) <= total
    requires j > 0 ==> CleanCount(dirty[..j - 1]) < total
    ensures EvictAt(KeepDirty(s[..j], dirty[..j]) + s[j..], s, dirty, j, total - CleanCount(dirty[..j]), total)
  {
    if j == 0 {
      assert dirty[..0] == [];
      EvictStart(s, dirty, total);
    } else {
      var k := j - 1;
      CleanCountSnoc(dirty, j);
      if k > 0 {
        CleanCountSnoc(dirty, k);
      }
      WalkPrefix(s, dirty, k, total);
      EvictStep(s, dirty, k, total - CleanCount(dirty[..k]), total);
    }
  }

  /** One entry visited with removals left: the budget drops by one exactly
      when that entry was unmodified. */
  lemma EvictStep<V>(s: seq<(string, V)>, dirty: seq<bool>, k: nat, budget: nat, total: nat)
    requires |s| == |dirty| && k < |s| && budget > 0
    requires EvictAt(KeepDirty(s[..k], dirty[..k]) + s[k..], s, dirty, k, budget, total)
    ensures EvictAt(KeepDirty(s[..k + 1], dirty[..k + 1]) + s[k + 1..], s, dirty, k + 1,
                    if dirty[k] then budget else budget - 1, total)
  {
    EvictAdvance(s, dirty, k, budget);
    if dirty[k] {
      AppendAssoc(KeepDirty(s[..k], dirty[..k]), [s[k]], Evict(s[k + 1..], dirty[k + 1..], budget));
    }
  }

  /** The entries left after visiting the first i of them and unsetting each
      unmodified one, as the loops of factoryCleanup and factoryReset do. */
  function Walk<V>(s: seq<(string, V)>, dirty: seq<bool>, i: nat): seq<(string, V)>
    requires |s| == |dirty| && i <= |s|
  {
    if i == 0 then s
    else
      var before := Walk(s, dirty, i - 1);
      if dirty[i - 1] then before else Delete(before, s[i - 1].0)
  }

  /** One more step of the walk: entry i is dropped unless it is modified. */
  lemma WalkNext<V>(s: seq<(string, V)>, dirty: seq<bool>, i: nat)
    requires |s| == |dirty| && i < |s|
    ensures Walk(s, dirty, i + 1) == if dirty[i] then Walk(s, dirty, i) else Delete(Walk(s, dirty, i), s[i].0)
  {
  }

  /** In a PHP array, the walk has kept the modified entries among the first i
      and not yet touched the rest. */
  lemma {:induction false} WalkIsKeepDirty<V>(s: seq<(string, V)>, dirty: seq<bool>, i: nat)
    requires |s| == |dirty| && i <= |s| && Distinct(s)
    ensures Walk(s, dirty, i) == KeepDirty(s[..i], dirty[..i]) + s[i..]
    ensures Distinct(Walk(s, dirty, i))
  {
    if i == 0 {
      assert s[..0] == [] && dirty[..0] == [] && s[0..] == s;
    } else {
      WalkIsKeepDirty(s, dirty, i - 1);
      if dirty[i - 1] {
        KeepStep(Walk(s, dirty, i - 1), s, dirty, i - 1);
      } else {
        DropStep(Walk(s, dirty, i - 1), s, dirty, i - 1);
      }
    }
  }

  /** factoryReset: the walk over every entry keeps exactly the modified ones. */
  lemma ResetWalk<V>(s: seq<(string, V)>, dirty: seq<bool>)
    requires |s| == |dirty| && Distinct(s)
    ensures Walk(s, dirty, |s|) == KeepDirty(s, dirty)
    ensures Distinct(KeepDirty(s, dirty))
  {
    WalkIsKeepDirty(s, dirty, |s|);
    WalkDone(s, dirty);
  }

  /** factoryCleanup: a walk above the limit that stops at the end of the
      list, or right after the step that brought the list down to the limit,
      has done exactly the eviction Cleanup describes. */
  lemma CleanupWalk<V>(s: seq<(string, V)>, dirty: seq<bool>, j: nat)
    requires |s| == |dirty| && |s| > Limit && j <= |s| && Distinct(s)
    requires |Walk(s, dirty, j)| > Limit || (j > 0 && |Walk(s, dirty, j - 1)| > Limit)
    requires j == |s| || |Walk(s, dirty, j)| <= Limit
    ensures Walk(s, dirty, j) == Cleanup(s, dirty)
    ensures Distinct(Cleanup(s, dirty))
  {
    var total := |s| - Limit;
    assert Cleanup(s, dirty) == Evict(s, dirty, total);
    CleanupBudget(s, dirty, j);
    WalkIsKeepDirty(s, dirty, j);
    WalkPrefix(s, dirty, j, total);
    EvictStop(Walk(s, dirty, j), s, dirty, j, total - CleanCount(dirty[..j]), total);
  }

  /** Where factoryCleanup's walk stops, the unmodified entries seen so far
      number exactly the excess, or fewer if the walk reached the end; before
      the last step they were fewer than the excess. */
  lemma CleanupBudget<V>(s: seq<(string, V)>, dirty: seq<bool>, j: nat)
    requires |s| == |dirty| && |s| > Limit && j <= |s| && Distinct(s)
    requires |Walk(s, dirty, j)| > Limit || (j > 0 && |Walk(s, dirty, j - 1)| > Limit)
    requires j == |s| || |Walk(s, dirty, j)| <= Limit
    ensures CleanCount(dirty[..j]) <= |s| - Limit
    ensures j > 0 ==> CleanCount(dirty[..j - 1]) < |s| - Limit
    ensures j == |s| || CleanCount(dirty[..j]) == |s| - Limit
  {
    WalkSize(s, dirty, j);
    if j > 0 {
      WalkSize(s, dirty, j - 1);
      CleanCountSnoc(dirty, j);
    }
  }

  /** After visiting i entries the walk has removed one entry per unmodified
      entry among them. */
  lemma WalkSize<V>(s: seq<(string, V)>, dirty: seq<bool>, i: nat)
    requires |s| == |dirty| && i <= |s| && Distinct(s)
    ensures |Walk(s, dirty, i)| == |s| - CleanCount(dirty[..i])
  {
    WalkIsKeepDirty(s, dirty, i);
    KeepDirtySize(s[..i], dirty[..i]);
  }

  lemma CleanCountSnoc(dirty: seq<bool>, j: nat)
    requires 0 < j <= |dirty|
    ensures CleanCount(dirty[..j]) == CleanCount(dirty[..j - 1]) + (if dirty[j - 1] then 0 else 1)
  {
    CleanCountAppend(dirty[..j - 1], [dirty[j - 1]]);
    assert dirty[..j - 1] + [dirty[j - 1]] == dirty[..j];
  }
}

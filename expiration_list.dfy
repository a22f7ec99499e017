/**
 * An expiration list: a container that hands out stable identifiers that are
 * never reused. New entries go to a dense store (a sequence of optional
 * slots, slot `i` holding identifier `firstId + i`); removals that leave the
 * dense store mostly empty migrate its surviving leading entries into an
 * overflow map keyed by identifier and advance `firstId`.
 */
module ExpirationLists {
  import opened Wrappers
  import opened Enumeration
  import opened DenseStore

  class ExpirationList<T> {
    /** The identifier held by slot 0 of the dense store; overflow keys are all below it. */
    var firstId: nat
    /** The number of populated slots of the dense store (overflow entries are not counted). */
    var count: nat
    /** The dense store. */
    var list: seq<Option<T>>
    /** The overflow store: entries migrated out of the dense store by compaction. */
    var m: map<nat, T>

    /** `count` counts the populated dense slots, and every overflow key lies below `firstId`. */
    ghost predicate Valid()
      reads this
    {
      && count == CountSome(list)
      && (forall id :: id in m ==> id < firstId)
    }

    /** The live entries, by identifier, in either store. */
    ghost function Contents(): map<nat, T>
      reads this
    {
      m + DenseEntries(firstId, list)
    }

    /** The identifier the next `Add` hands out; every live identifier is below it. */
    function NextId(): (next: nat)
      reads this
      ensures Valid() ==> forall id :: id in Contents() ==> id < next
    {
      firstId + |list|
    }

    /** An empty list (`new` and `default`). */
    constructor ()
      ensures Valid()
      ensures firstId == 0 && count == 0 && list == [] && m == map[]
      ensures Contents() == map[]
    {
      firstId, count, list, m := 0, 0, [], map[];
      new;
      assert DenseEntries(firstId, list) == map[];
    }

    /** Appends `v` to the dense store and returns its new identifier. */
    method Add(v: T) returns (id: nat)
      requires Valid()
      modifies this
      ensures Valid()
      ensures id == old(NextId()) && NextId() == id + 1
      ensures id !in old(Contents())
      ensures Contents() == old(Contents())[id := v]
      ensures Get(id) == Some(v) && forall j :: j != id ==> Get(j) == old(Get(j))
      ensures list == old(list) + [Some(v)] && count == old(count) + 1
      ensures firstId == old(firstId) && m == old(m)
    {
      CountSomeSnoc(list, Some(v));
      DenseEntriesSnoc(firstId, list, Some(v));
      list := list + [Some(v)];
      count := count + 1;
      id := firstId + |list| - 1;
    }

    /**
     * Removes identifier `id` and returns its value, or `None` when it is not
     * live. Clearing a dense slot may run the compaction pass, which retires
     * the first `ShrinkCount` slots into the overflow store and advances
     * `firstId` by as much.
     */
    method Remove(id: nat) returns (r: Option<T>)
      requires Valid()
      modifies this
      ensures Valid()
      ensures r == Lookup(old(Contents()), id)
      ensures Contents() == old(Contents()) - {id}
      ensures r == old(Get(id)) && Get(id) == None
      ensures NextId() == old(NextId()) && old(firstId) <= firstId
      ensures id < old(firstId) ==>
        firstId == old(firstId) && count == old(count) && list == old(list) && m == old(m) - {id}
      ensures r == None ==>
        firstId == old(firstId) && count == old(count) && list == old(list) && m == old(m)
      ensures old(firstId) <= id < old(firstId) + |old(list)| && r != None ==>
        var s := old(list)[id - old(firstId) := None];
        var k := ShrinkCount(s);
        && firstId == old(firstId) + k
        && list == s[k..]
        && m == old(m) + DenseEntries(old(firstId), s[..k])
        && count == CountSome(list)
        && (count * 2 >= |list| || |list| <= MinShrinkLen)
    {
      if id < firstId {
        if id in m {
          r := Some(m[id]);
          OverflowRemove(m, DenseEntries(firstId, list), id);
          m := m - {id};
        } else {
          r := None;
        }
        return;
      }
      var i := id - firstId;
      if i >= |list| {
        return None;
      }
      r := list[i];
      if r.None? {
        return;
      }
      ghost var f, m0, s0 := firstId, m, list;
      CountSomeUpdate(list, i, None);
      list := list[i := None];
      count := count - 1;
      SparseAtStart(list);
      var originalLen: nat := |list|;
      if count * 2 < originalLen && originalLen > MinShrinkLen {
        Shrink();
      } else {
        NoCompaction(m, firstId, list);
      }
      ClearedEntries(m0, f, s0, i, id, ShrinkCount(s0[i := None]), m, firstId, list);
    }

    /**
     * The compaction pass, run by `Remove` once the trigger fired: one walk
     * over the dense store that migrates the populated slots before the
     * cutoff into the overflow store and keeps the rest, the cutoff starting
     * at half the store and growing whenever the region after it is still
     * sparse; `firstId` then advances by the final cutoff.
     */
    method Shrink()
      requires count == CountSome(list) && Sparse(list, 0)
      modifies this
      ensures firstId == old(firstId) + ShrinkCount(old(list))
      ensures list == old(list)[ShrinkCount(old(list))..]
      ensures m == old(m) + DenseEntries(old(firstId), old(list)[..ShrinkCount(old(list))])
      ensures count == CountSome(list)
    {
      ghost var s := list;
      ghost var m0 := m;
      ghost var final := CompactionWalk(s, firstId, 0, Walk(|s| / 2, CountSome(s), [], m0));
      var originalLen: nat := |list|;
      var shrinkCount: nat := originalLen / 2;
      var swapList := list;
      list := [];
      var idx: nat := 0;
      while idx < originalLen
        invariant idx <= originalLen == |s| && swapList == s && firstId == old(firstId)
        invariant idx < shrinkCount ==> count == CountSome(s[idx..])
        invariant CompactionWalk(s, firstId, idx, Walk(shrinkCount, count, list, m)) == final
      {
        if idx < shrinkCount {
          CountSomeDrop(s, idx);
        }
        shrinkCount := CompactionStep(s, idx, swapList[idx], originalLen, shrinkCount);
        idx := idx + 1;
      }
      CompactionWalkResult(s, m0, firstId);
      firstId := firstId + shrinkCount;
    }

    /**
     * The body of the compaction pass for slot `idx` of the old dense store
     * `s`, holding `value`, with cutoff `shrinkCount`: one `WalkStep` on the
     * fields. Returns the possibly extended cutoff.
     */
    method CompactionStep(ghost s: seq<Option<T>>, idx: nat, value: Option<T>, originalLen: nat, shrinkCount: nat)
      returns (newShrinkCount: nat)
      requires idx < |s| == originalLen && s[idx] == value
      requires idx < shrinkCount && value.Some? ==> count > 0
      modifies this
      ensures firstId == old(firstId)
      ensures Walk(newShrinkCount, count, list, m) == WalkStep(s, firstId, idx, Walk(shrinkCount, old(count), old(list), old(m)))
    {
      newShrinkCount := shrinkCount;
      if idx < shrinkCount {
        if value.Some? {
          m := m[idx + firstId := value.value];
          count := count - 1;
        }
        var remainingLen := originalLen - shrinkCount;
        if idx == shrinkCount - 1 && count * 2 < remainingLen && remainingLen > MinShrinkLen {
          newShrinkCount := shrinkCount + remainingLen / 2;
        }
      } else {
        list := list + [value];
      }
    }

    /** The value of identifier `id`, routed to the overflow or the dense store by comparing `id` with `firstId`. */
    function Get(id: nat): (r: Option<T>)
      reads this
      ensures Valid() ==> r == Lookup(Contents(), id)
    {
      if id < firstId then Lookup(m, id)
      else if id - firstId < |list| then list[id - firstId]
      else None
    }

    /**
     * Writes `v` through the reference `get_mut` returns for `id`; reports
     * whether there was one. Routing is that of `Get`.
     */
    method GetMut(id: nat, v: T) returns (found: bool)
      requires Valid()
      modifies this
      ensures Valid()
      ensures found == (id in old(Contents()))
      ensures Contents() == if found then old(Contents())[id := v] else old(Contents())
      ensures firstId == old(firstId) && count == old(count) && |list| == |old(list)| && m.Keys == old(m).Keys
    {
      if id < firstId {
        found := id in m;
        if found {
          OverflowUpdate(m, DenseEntries(firstId, list), id, v);
          m := m[id := v];
        }
      } else if id - firstId < |list| && list[id - firstId].Some? {
        CountSomeUpdate(list, id - firstId, Some(v));
        DenseWrite(m, firstId, list, id, v);
        list := list[id - firstId := Some(v)];
        found := true;
      } else {
        found := false;
      }
    }

    /**
     * Whether `id` is live, as the library computes it: the dense store is
     * indexed by `id` itself, not by `id - firstId`. This agrees with `Get`
     * only while `firstId` is 0.
     */
    function Contains(id: nat): (b: bool)
      reads this
      ensures Valid() && id < firstId ==> (b <==> id in Contents())
      ensures Valid() && firstId == 0 ==> (b <==> id in Contents())
    {
      if id < firstId then id in m
      else id < |list| && list[id].Some?
    }

    /** Whether `id` is live, with the dense index offset by `firstId` as `Get` does it. */
    function ContainsIntended(id: nat): (b: bool)
      reads this
      ensures Valid() ==> (b <==> id in Contents())
      ensures b <==> Get(id).Some?
    {
      if id < firstId then id in m
      else id - firstId < |list| && list[id - firstId].Some?
    }
  }

  /** Writing an overflow entry whose identifier is not dense writes that entry of the union. */
  lemma OverflowUpdate<T>(m0: map<nat, T>, d: map<nat, T>, id: nat, v: T)
    requires id !in d
    ensures m0[id := v] + d == (m0 + d)[id := v]
  {
  }

  /** Removing an overflow entry whose identifier is not dense removes that entry from the union. */
  lemma OverflowRemove<T>(m0: map<nat, T>, d: map<nat, T>, id: nat)
    requires id !in d
    ensures (m0 - {id}) + d == (m0 + d) - {id}
  {
  }

  /** Overwriting dense slot `i` overwrites exactly identifier `first + i` of the live entries. */
  lemma UpdateKeepsOthers<T>(m0: map<nat, T>, first: nat, s: seq<Option<T>>, i: nat, x: Option<T>)
    requires i < |s| && forall id :: id in m0 ==> id < first
    ensures m0 + DenseEntries(first, s[i := x])
         == if x.Some? then (m0 + DenseEntries(first, s))[first + i := x.value]
            else (m0 + DenseEntries(first, s)) - {first + i}
  {
    DenseEntriesUpdate(first, s, i, x);
  }

  /** Writing a value into the dense slot of identifier `id` writes that entry of the live entries. */
  lemma DenseWrite<T>(m0: map<nat, T>, first: nat, s: seq<Option<T>>, id: nat, v: T)
    requires first <= id < first + |s| && forall j :: j in m0 ==> j < first
    ensures m0 + DenseEntries(first, s[id - first := Some(v)]) == (m0 + DenseEntries(first, s))[id := v]
  {
    UpdateKeepsOthers(m0, first, s, id - first, Some(v));
  }

  /**
   * Migrating the first `k` slots into the overflow store under their own
   * identifiers and re-basing the rest at `first + k` leaves the live entries
   * as they were, and the migrated identifiers are all below `first + k`.
   */
  lemma CompactionKeepsEntries<T>(m0: map<nat, T>, first: nat, s: seq<Option<T>>, k: nat)
    requires k <= |s|
    ensures (m0 + DenseEntries(first, s[..k])) + DenseEntries(first + k, s[k..]) == m0 + DenseEntries(first, s)
    ensures forall id :: id in DenseEntries(first, s[..k]) ==> id < first + k
  {
    DenseEntriesSplit(first, s, k);
  }

  /**
   * Clearing populated dense slot `i` and then migrating the first `k` slots
   * into the overflow store (as the compaction pass does, `k` being 0 when
   * it does not run) removes exactly identifier `first + i` from the live
   * entries and keeps every overflow key below the new first identifier.
   */
  lemma ClearedEntries<T>(m0: map<nat, T>, first: nat, s0: seq<Option<T>>, i: nat, id: nat, k: nat,
                          m1: map<nat, T>, first1: nat, s1: seq<Option<T>>)
    requires i < |s0| && s0[i].Some? && id == first + i && k <= |s0| && forall j :: j in m0 ==> j < first
    requires first1 == first + k && s1 == s0[i := None][k..] && m1 == m0 + DenseEntries(first, s0[i := None][..k])
    ensures m1 + DenseEntries(first1, s1) == (m0 + DenseEntries(first, s0)) - {id}
    ensures forall j :: j in m1 ==> j < first1
  {
    var s := s0[i := None];
    UpdateKeepsOthers(m0, first, s0, i, None);
    CompactionKeepsEntries(m0, first, s, k);
  }

  /**
   * Once `firstId` has caught up with the length of the dense store (as it
   * does after compaction), `Contains` reports every live dense identifier
   * as absent although `Get` finds it.
   */
  lemma ContainsMissesLiveId<T>(l: ExpirationList<T>, id: nat)
    requires l.Valid() && |l.list| <= l.firstId
    requires l.firstId <= id && id in l.Contents()
    ensures l.Get(id).Some? && !l.Contains(id)
  {
  }

  /**
   * Iterating a valid list (the overflow entries in the order `e` the map
   * gives, then the dense phase) lists every live entry exactly once; with
   * no overflow entries the identifiers ascend.
   */
  lemma IterationYieldsContents<T>(l: ExpirationList<T>, e: seq<(nat, T)>)
    requires l.Valid() && IsEnumeration(e, l.m)
    ensures IsEnumeration(e + DenseYield(l.firstId, l.list), l.Contents())
    ensures e == [] ==> Ascending(e + DenseYield(l.firstId, l.list))
  {
    DenseYieldEnumerates(l.firstId, l.list);
    EnumerationConcat(e, l.m, DenseYield(l.firstId, l.list), DenseEntries(l.firstId, l.list));
    if e == [] {
      DenseYieldAscends(l.firstId, l.list);
      assert e + DenseYield(l.firstId, l.list) == DenseYield(l.firstId, l.list);
    }
  }

  /**
   * The iterator of an expiration list: first the overflow entries (`mapIter`,
   * in hash-map order), then the dense slots left in `listIter`, `listId`
   * being the identifier of the next one.
   */
  class ExpirationListIterator<T> {
    var mapIter: Option<seq<(nat, T)>>
    var listIter: seq<Option<T>>
    var listId: nat

    /** The pairs this iterator has still to yield. */
    ghost function Remaining(): (r: seq<(nat, T)>)
      reads this
      ensures |r| == (if mapIter.Some? then |mapIter.value| else 0) + CountSome(listIter)
    {
      (if mapIter.Some? then mapIter.value else []) + DenseYield(listId, listIter)
    }

    /** `into_iter`: an iterator over all of `l`. */
    constructor (l: ExpirationList<T>)
      ensures mapIter.Some? && IsEnumeration(mapIter.value, l.m)
      ensures listIter == l.list && listId == l.firstId
      ensures l.Valid() ==> IsEnumeration(Remaining(), l.Contents())
      ensures l.Valid() && l.m == map[] ==> Ascending(Remaining())
    {
      var entries := Enumerate(l.m);
      mapIter := Some(entries);
      listIter := l.list;
      listId := l.firstId;
      new;
      assert Remaining() == entries + DenseYield(l.firstId, l.list);
      if l.Valid() {
        IterationYieldsContents(l, entries);
      }
    }

    /** Yields the next pair, or `None` once both phases are exhausted. */
    method Next() returns (r: Option<(nat, T)>)
      modifies this
      ensures old(Remaining()) == [] ==> r == None && Remaining() == []
      ensures old(Remaining()) != [] ==> r == Some(old(Remaining())[0]) && Remaining() == old(Remaining())[1..]
      ensures mapIter.Some? ==> old(mapIter).Some? && listIter == old(listIter) && listId == old(listId)
    {
      while true
        invariant Remaining() == old(Remaining())
        invariant mapIter.Some? ==> mapIter == old(mapIter) && listIter == old(listIter) && listId == old(listId)
        decreases if mapIter.Some? then 1 else 0, |listIter|
      {
        match mapIter {
          case Some(entries) =>
            if entries != [] {
              mapIter := Some(entries[1..]);
              return Some(entries[0]);
            }
            mapIter := None;
          case None =>
            var next := if listIter == [] then None else Some(listIter[0]);
            if listIter != [] {
              listIter := listIter[1..];
            }
            listId := listId + 1;
            match next {
              case Some(Some(value)) =>
                return Some((listId - 1, value));
              case Some(None) =>
              case None =>
                return None;
            }
        }
      }
    }
  }

  /** Moving one element from the suffix of `s` at `i` to its prefix. */
  lemma PrefixStep<A>(s: seq<A>, i: nat)
    requires i < |s|
    ensures s[..i + 1] == s[..i] + [s[i]] && s[i..][1..] == s[i + 1..] && s[i..][0] == s[i]
  {
  }

  /** Drains `it`, as a `for` loop over the list does, and returns what it yielded. */
  method Collect<T>(it: ExpirationListIterator<T>) returns (out: seq<(nat, T)>)
    modifies it
    ensures out == old(it.Remaining())
  {
    ghost var all := it.Remaining();
    out := [];
    while true
      invariant |out| <= |all| && out == all[..|out|] && it.Remaining() == all[|out|..]
      decreases |all| - |out|
    {
      var r := it.Next();
      if r.None? {
        return;
      }
      PrefixStep(all, |out|);
      out := out + [r.value];
    }
  }

  /** The library's usage example: one value added to a fresh list, looked up, and removed again. */
  method UsageExample<T>(value: T) returns (got: Option<T>, present: bool, removed: Option<T>, gotAfter: Option<T>, presentAfter: bool)
    ensures got == Some(value) && present
    ensures removed == Some(value) && gotAfter == None && !presentAfter
  {
    var list := new ExpirationList<T>();
    var id := list.Add(value);
    got := list.Get(id);
    present := list.Contains(id);
    removed := list.Remove(id);
    gotAfter := list.Get(id);
    presentAfter := list.Contains(id);
  }

  /**
   * Removing the same identifier again after it is gone keeps failing and
   * leaves the count alone: ten values, one removal, ten futile removals and
   * ten more values leave nineteen.
   */
  method RemovesMultipleTimes() returns (first: Option<int>, again: seq<Option<int>>, count: nat)
    ensures first == Some(1) && |again| == 10 && (forall i :: 0 <= i < |again| ==> again[i] == None)
    ensures count == 19
  {
    var list := new ExpirationList<int>();
    var idx := 0;
    while idx < 10
      invariant 0 <= idx <= 10 && list.Valid() && list.firstId == 0 && list.count == idx
      invariant |list.list| == idx && forall i :: 0 <= i < idx ==> list.list[i] == Some(i)
    {
      var _ := list.Add(idx);
      idx := idx + 1;
    }
    ghost var full := list.list;
    first := list.Remove(1);
    CountSomeUpdate(full, 1, None);
    again := [];
    while |again| < 10
      invariant |again| <= 10 && forall i :: 0 <= i < |again| ==> again[i] == None
      invariant list.Valid() && list.count == 9 && 1 !in list.Contents()
    {
      var r := list.Remove(1);
      again := again + [r];
    }
    idx := 0;
    while idx < 10
      invariant 0 <= idx <= 10 && list.Valid() && list.count == 9 + idx
    {
      var _ := list.Add(idx);
      idx := idx + 1;
    }
    count := list.count;
  }
}

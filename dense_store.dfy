/**
 * The dense store of an expiration list, as a value: a sequence of slots in
 * which slot `i` holds identifier `first + i`. These functions say which
 * entries the store holds, when compaction fires, how far it cuts, and what
 * the dense phase of iteration yields.
 */
module DenseStore {
  import opened Wrappers
  import opened Enumeration

  /** The size floor of the compaction trigger: a dense store of at most this many slots is never shrunk. */
  const MinShrinkLen: nat := 32

  /** The number of populated slots in `s`. */
  function CountSome<T>(s: seq<Option<T>>): nat
  {
    if s == [] then 0 else (if s[0].Some? then 1 else 0) + CountSome(s[1..])
  }

  /** The slot of a dense store whose slot 0 holds identifier `first` that holds identifier `id`. */
  function SlotOf<T>(first: nat, s: seq<Option<T>>, id: nat): Option<T>
    requires first <= id < first + |s|
  {
    s[id - first]
  }

  /** The live entries of a dense store whose slot 0 holds identifier `first`. */
  function DenseEntries<T>(first: nat, s: seq<Option<T>>): map<nat, T>
  {
    map id: nat | first <= id < first + |s| && SlotOf(first, s, id).Some? :: SlotOf(first, s, id).value
  }

  /**
   * The compaction trigger evaluated on the slots of `s` from index `c` on:
   * fewer than half of them are populated and there are more than 32 of them.
   */
  predicate Sparse<T>(s: seq<Option<T>>, c: nat): (b: bool)
    requires c <= |s|
    ensures b ==> c + MinShrinkLen < |s|
    ensures b ==> c < c + (|s| - c) / 2 <= |s|
  {
    CountSome(s[c..]) * 2 < |s| - c && |s| - c > MinShrinkLen
  }

  /**
   * The final cutoff of the compaction pass reached from a cutoff `c`: while
   * the region left after the cutoff is still sparse, the cutoff grows by half
   * of that region. The result never passes the end of `s`, and the region it
   * leaves is not sparse.
   */
  function Cutoff<T>(s: seq<Option<T>>, c: nat): (k: nat)
    requires c <= |s|
    ensures c <= k <= |s|
    ensures !Sparse(s, k)
    decreases |s| - c
  {
    if Sparse(s, c) then Cutoff(s, c + (|s| - c) / 2) else c
  }

  /**
   * How many leading slots a removal retires from the dense store `s` (the
   * store after the removed slot was cleared): none when `s` is not sparse,
   * otherwise at least half of them, extended adaptively.
   */
  function ShrinkCount<T>(s: seq<Option<T>>): (k: nat)
    ensures k <= |s|
    ensures !Sparse(s, k)
    ensures !Sparse(s, 0) ==> k == 0
    ensures Sparse(s, 0) ==> |s| / 2 <= k
  {
    if Sparse(s, 0) then Cutoff(s, |s| / 2) else 0
  }

  /** The `(id, value)` pairs of the populated slots of `s`, in slot order, slot 0 having identifier `id`. */
  function DenseYield<T>(id: nat, s: seq<Option<T>>): (r: seq<(nat, T)>)
    ensures |r| == CountSome(s)
    decreases |s|
  {
    if s == [] then [] else (if s[0].Some? then [(id, s[0].value)] else []) + DenseYield(id + 1, s[1..])
  }

  /** The compaction trigger: the whole store is sparse iff fewer than half its slots are populated and it is longer than `MinShrinkLen`. */
  lemma SparseAtStart<T>(s: seq<Option<T>>)
    ensures Sparse(s, 0) <==> CountSome(s) * 2 < |s| && |s| > MinShrinkLen
  {
    assert s[0..] == s;
  }

  /** When the trigger does not fire nothing is compacted: no slot is retired and the overflow store gains nothing. */
  lemma NoCompaction<T>(m0: map<nat, T>, first: nat, s: seq<Option<T>>)
    requires !Sparse(s, 0)
    ensures ShrinkCount(s) == 0 && s[ShrinkCount(s)..] == s
    ensures m0 + DenseEntries(first, s[..ShrinkCount(s)]) == m0
  {
    assert s[..0] == [];
    assert DenseEntries(first, s[..0]) == map[];
  }

  /** Appending a slot adds one to the count exactly when the slot is populated. */
  lemma {:induction false} CountSomeSnoc<T>(s: seq<Option<T>>, x: Option<T>)
    ensures CountSome(s + [x]) == CountSome(s) + (if x.Some? then 1 else 0)
  {
    if s == [] {
      assert (s + [x])[1..] == [];
    } else {
      assert (s + [x])[1..] == s[1..] + [x];
      CountSomeSnoc(s[1..], x);
    }
  }

  /** The count from slot `i` on is that of slot `i` plus the count after it. */
  lemma CountSomeDrop<T>(s: seq<Option<T>>, i: nat)
    requires i < |s|
    ensures CountSome(s[i..]) == CountSome(s[i + 1..]) + (if s[i].Some? then 1 else 0)
  {
    assert s[i..][1..] == s[i + 1..];
  }

  /** Overwriting one slot changes the count by the change in that slot's population. */
  lemma {:induction false} CountSomeUpdate<T>(s: seq<Option<T>>, i: nat, x: Option<T>)
    requires i < |s|
    ensures CountSome(s[i := x]) + (if s[i].Some? then 1 else 0) == CountSome(s) + (if x.Some? then 1 else 0)
  {
    if i == 0 {
      assert s[i := x][1..] == s[1..];
    } else {
      assert s[i := x][1..] == s[1..][i - 1 := x];
      CountSomeUpdate(s[1..], i - 1, x);
    }
  }

  /** Appending a populated slot adds its value under the next identifier; an empty one adds nothing. */
  lemma DenseEntriesSnoc<T>(first: nat, s: seq<Option<T>>, x: Option<T>)
    ensures DenseEntries(first, s + [x])
         == if x.Some? then DenseEntries(first, s)[first + |s| := x.value] else DenseEntries(first, s)
  {
    var t := s + [x];
    var r := if x.Some? then DenseEntries(first, s)[first + |s| := x.value] else DenseEntries(first, s);
    forall id: nat
      ensures (id in DenseEntries(first, t)) == (id in r)
      ensures id in r ==> DenseEntries(first, t)[id] == r[id]
    {
      if first <= id < first + |s| {
        assert t[id - first] == s[id - first];
      }
    }
  }

  /** Extending the migrated prefix by slot `idx` adds that slot's entry, if any, under identifier `idx + first`. */
  lemma PrefixEntriesStep<T>(m0: map<nat, T>, first: nat, s: seq<Option<T>>, idx: nat)
    requires idx < |s|
    ensures m0 + DenseEntries(first, s[..idx + 1])
         == if s[idx].Some? then (m0 + DenseEntries(first, s[..idx]))[idx + first := s[idx].value]
            else m0 + DenseEntries(first, s[..idx])
  {
    assert s[..idx + 1] == s[..idx] + [s[idx]];
    DenseEntriesSnoc(first, s[..idx], s[idx]);
  }

  /** Overwriting slot `i` rewrites exactly identifier `first + i`. */
  lemma DenseEntriesUpdate<T>(first: nat, s: seq<Option<T>>, i: nat, x: Option<T>)
    requires i < |s|
    ensures DenseEntries(first, s[i := x])
         == if x.Some? then DenseEntries(first, s)[first + i := x.value] else DenseEntries(first, s) - {first + i}
  {
    var t := s[i := x];
    var r := if x.Some? then DenseEntries(first, s)[first + i := x.value] else DenseEntries(first, s) - {first + i};
    forall id: nat
      ensures (id in DenseEntries(first, t)) == (id in r)
      ensures id in r ==> DenseEntries(first, t)[id] == r[id]
    {
    }
  }

  /**
   * Cutting the store after `k` slots splits its entries: the first `k` slots
   * keep their identifiers, all below `first + k`, and the rest are the
   * entries of a store whose slot 0 holds identifier `first + k`.
   */
  lemma DenseEntriesSplit<T>(first: nat, s: seq<Option<T>>, k: nat)
    requires k <= |s|
    ensures DenseEntries(first, s[..k]) + DenseEntries(first + k, s[k..]) == DenseEntries(first, s)
    ensures forall id :: id in DenseEntries(first, s[..k]) ==> id < first + k
  {
    var lo, hi := DenseEntries(first, s[..k]), DenseEntries(first + k, s[k..]);
    forall id: nat
      ensures (id in lo + hi) == (id in DenseEntries(first, s))
      ensures id in lo + hi ==> (lo + hi)[id] == DenseEntries(first, s)[id]
    {
      if first <= id < first + k {
        assert s[..k][id - first] == s[id - first];
      } else if first + k <= id < first + |s| {
        assert s[k..][id - (first + k)] == s[id - first];
      }
    }
  }

  /** A non-empty store's entries are those of its first slot and those of the slots after it. */
  lemma DenseEntriesCons<T>(id: nat, s: seq<Option<T>>)
    requires s != []
    ensures DenseEntries(id, s)
         == (if s[0].Some? then map[id := s[0].value] else map[]) + DenseEntries(id + 1, s[1..])
    ensures id !in DenseEntries(id + 1, s[1..])
  {
    DenseEntriesSplit(id, s, 1);
    assert DenseEntries(id, s[..1]) == if s[0].Some? then map[id := s[0].value] else map[];
  }

  /** The identifiers of the dense phase of iteration ascend from `id`. */
  lemma {:induction false} DenseYieldAscends<T>(id: nat, s: seq<Option<T>>)
    ensures Ascending(DenseYield(id, s))
    ensures forall j :: 0 <= j < |DenseYield(id, s)| ==> id <= DenseYield(id, s)[j].0
    decreases |s|
  {
    if s != [] {
      var rest := DenseYield(id + 1, s[1..]);
      DenseYieldAscends(id + 1, s[1..]);
      var head: seq<(nat, T)> := if s[0].Some? then [(id, s[0].value)] else [];
      assert DenseYield(id, s) == head + rest;
      forall i, j | 0 <= i < j < |head + rest|
        ensures (head + rest)[i].0 < (head + rest)[j].0
      {
        if i >= |head| {
          assert (head + rest)[i] == rest[i - |head|] && (head + rest)[j] == rest[j - |head|];
        } else {
          assert (head + rest)[j] == rest[j - |head|];
        }
      }
    }
  }

  /** The dense phase of iteration lists every entry of the dense store exactly once. */
  lemma {:induction false} DenseYieldEnumerates<T>(id: nat, s: seq<Option<T>>)
    ensures IsEnumeration(DenseYield(id, s), DenseEntries(id, s))
    decreases |s|
  {
    if s == [] {
      assert DenseEntries(id, s) == map[];
    } else {
      DenseYieldEnumerates(id + 1, s[1..]);
      DenseEntriesCons(id, s);
      var head: seq<(nat, T)> := if s[0].Some? then [(id, s[0].value)] else [];
      EnumerationConcat(head, if s[0].Some? then map[id := s[0].value] else map[],
                        DenseYield(id + 1, s[1..]), DenseEntries(id + 1, s[1..]));
    }
  }

  /**
   * The state of the compaction pass: the current cutoff, the count of
   * populated dense slots, the slots kept so far (the new dense store) and
   * the overflow store.
   */
  datatype Walk<T> = Walk(cutoff: nat, count: int, kept: seq<Option<T>>, overflow: map<nat, T>)

  /**
   * One step of the compaction pass over the old dense store `s`, whose slot
   * 0 held identifier `first`, at slot `idx`. A slot before the cutoff moves
   * to the overflow store under its identifier when it is populated (and is
   * uncounted); after the last slot before the cutoff, the cutoff grows by
   * half of the region after it when that region is still sparse. A slot at
   * or past the cutoff is kept.
   */
  function WalkStep<T>(s: seq<Option<T>>, first: nat, idx: nat, w: Walk<T>): (r: Walk<T>)
    requires idx < |s|
    ensures w.cutoff <= r.cutoff && (r.cutoff > w.cutoff ==> idx + 1 == w.cutoff && r.cutoff <= |s|)
    ensures r.count + (if idx < w.cutoff && s[idx].Some? then 1 else 0) == w.count
    ensures r.overflow.Keys == w.overflow.Keys + (if idx < w.cutoff && s[idx].Some? then {idx + first} else {})
    ensures |r.kept| == |w.kept| + (if idx < w.cutoff then 0 else 1)
  {
    if idx < w.cutoff then
      var count := if s[idx].Some? then w.count - 1 else w.count;
      var overflow := if s[idx].Some? then w.overflow[idx + first := s[idx].value] else w.overflow;
      var remaining := |s| - w.cutoff;
      var cutoff := if idx == w.cutoff - 1 && count * 2 < remaining && remaining > MinShrinkLen
                    then w.cutoff + remaining / 2 else w.cutoff;
      Walk(cutoff, count, w.kept, overflow)
    else
      w.(kept := w.kept + [s[idx]])
  }

  /**
   * The compaction pass over `s` from slot `idx` on, one `WalkStep` per slot.
   * The cutoff only grows, and never past the end of `s` once inside it; the
   * count only falls; the overflow store only gains keys; at most one slot
   * is kept per step.
   */
  ghost function CompactionWalk<T>(s: seq<Option<T>>, first: nat, idx: nat, w: Walk<T>): (r: Walk<T>)
    ensures w.cutoff <= r.cutoff && (w.cutoff <= |s| ==> r.cutoff <= |s|)
    ensures r.count <= w.count && w.overflow.Keys <= r.overflow.Keys
    ensures idx <= |s| ==> |r.kept| <= |w.kept| + (|s| - idx)
    decreases |s| - idx
  {
    if idx >= |s| then w else CompactionWalk(s, first, idx + 1, WalkStep(s, first, idx, w))
  }

  /**
   * What the compaction pass has established when it reaches slot `idx` of
   * `s` with state `w`, the pass having started from overflow store `m0`:
   * the cutoff lies on the way to the final cutoff `k`, the slots before
   * `min(idx, k)` have been migrated and uncounted, and the slots from `k` up
   * to `idx` have been kept.
   */
  ghost predicate WalkInv<T>(s: seq<Option<T>>, first: nat, k: nat, idx: nat, w: Walk<T>, m0: map<nat, T>)
  {
    && idx <= |s| && w.cutoff <= k <= |s| && Cutoff(s, w.cutoff) == k
    && (idx < w.cutoff || w.cutoff == k)
    && (idx <= k ==> w.count == CountSome(s[idx..]) && w.kept == [] && w.overflow == m0 + DenseEntries(first, s[..idx]))
    && (k <= idx ==> w.count == CountSome(s[k..]) && w.kept == s[k..idx] && w.overflow == m0 + DenseEntries(first, s[..k]))
  }

  /** Migrating slot `idx`, before the cutoff, and possibly extending the cutoff keeps `WalkInv`. */
  lemma WalkMigrate<T>(s: seq<Option<T>>, first: nat, k: nat, idx: nat, w: Walk<T>, m0: map<nat, T>)
    requires WalkInv(s, first, k, idx, w, m0) && idx < w.cutoff
    ensures WalkInv(s, first, k, idx + 1, WalkStep(s, first, idx, w), m0)
  {
    CountSomeDrop(s, idx);
    PrefixEntriesStep(m0, first, s, idx);
  }

  /** Keeping slot `idx`, at or past the final cutoff, keeps `WalkInv`. */
  lemma WalkKeep<T>(s: seq<Option<T>>, first: nat, k: nat, idx: nat, w: Walk<T>, m0: map<nat, T>)
    requires WalkInv(s, first, k, idx, w, m0) && w.cutoff <= idx < |s|
    ensures WalkInv(s, first, k, idx + 1, WalkStep(s, first, idx, w), m0)
  {
    assert s[k..idx + 1] == s[k..idx] + [s[idx]];
  }

  /** From any state satisfying `WalkInv`, the pass ends at cutoff `k` with the slots from `k` on kept. */
  lemma {:induction false} WalkReachesCutoff<T>(s: seq<Option<T>>, first: nat, k: nat, idx: nat, w: Walk<T>, m0: map<nat, T>)
    requires WalkInv(s, first, k, idx, w, m0)
    ensures CompactionWalk(s, first, idx, w) == Walk(k, CountSome(s[k..]), s[k..], m0 + DenseEntries(first, s[..k]))
    decreases |s| - idx
  {
    if idx < |s| {
      if idx < w.cutoff {
        WalkMigrate(s, first, k, idx, w, m0);
      } else {
        WalkKeep(s, first, k, idx, w, m0);
      }
      WalkReachesCutoff(s, first, k, idx + 1, WalkStep(s, first, idx, w), m0);
    }
  }

  /**
   * The compaction pass over a sparse dense store `s`, started with the
   * cutoff at half the store, retires exactly the first `ShrinkCount(s)`
   * slots: their live entries join the overflow store under their own
   * identifiers, and the slots after them, and their count, remain.
   */
  lemma CompactionWalkResult<T>(s: seq<Option<T>>, m0: map<nat, T>, first: nat)
    requires Sparse(s, 0)
    ensures
      var k := ShrinkCount(s);
      CompactionWalk(s, first, 0, Walk(|s| / 2, CountSome(s), [], m0))
      == Walk(k, CountSome(s[k..]), s[k..], m0 + DenseEntries(first, s[..k]))
  {
    assert s[0..] == s && s[..0] == [];
    assert DenseEntries(first, s[..0]) == map[];
    WalkReachesCutoff(s, first, Cutoff(s, |s| / 2), 0, Walk(|s| / 2, CountSome(s), [], m0), m0);
  }
}

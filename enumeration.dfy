/**
 * Enumerations of identifier-keyed maps: the sequences of `(id, value)` pairs
 * that an iterator over such a map may produce.
 */
module Enumeration {

  /** `e` lists every entry of `c` exactly once, in some order. */
  ghost predicate IsEnumeration<T>(e: seq<(nat, T)>, c: map<nat, T>)
  {
    && (forall i :: 0 <= i < |e| ==> e[i].0 in c && c[e[i].0] == e[i].1)
    && (forall i, j :: 0 <= i < j < |e| ==> e[i].0 != e[j].0)
    && (forall id :: id in c ==> exists i :: 0 <= i < |e| && e[i].0 == id)
  }

  /** The identifiers of `e` strictly increase. */
  ghost predicate Ascending<T>(e: seq<(nat, T)>)
  {
    forall i, j :: 0 <= i < j < |e| ==> e[i].0 < e[j].0
  }

  /** Enumerations of two maps with disjoint keys concatenate to an enumeration of their union. */
  lemma EnumerationConcat<T>(e1: seq<(nat, T)>, c1: map<nat, T>, e2: seq<(nat, T)>, c2: map<nat, T>)
    requires IsEnumeration(e1, c1) && IsEnumeration(e2, c2)
    requires c1.Keys !! c2.Keys
    ensures IsEnumeration(e1 + e2, c1 + c2)
  {
    var e := e1 + e2;
    forall i | 0 <= i < |e|
      ensures e[i].0 in c1 + c2 && (c1 + c2)[e[i].0] == e[i].1
    {
      if i < |e1| {
        assert e[i] == e1[i];
        assert e1[i].0 !in c2;
      } else {
        assert e[i] == e2[i - |e1|];
      }
    }
    forall i, j | 0 <= i < j < |e|
      ensures e[i].0 != e[j].0
    {
      if j < |e1| {
        assert e[i] == e1[i] && e[j] == e1[j];
      } else if i >= |e1| {
        assert e[i] == e2[i - |e1|] && e[j] == e2[j - |e1|];
      } else {
        assert e[i] == e1[i] && e[j] == e2[j - |e1|];
        assert e[i].0 in c1 && e[j].0 in c2;
      }
    }
    forall id | id in c1 + c2
      ensures exists i :: 0 <= i < |e| && e[i].0 == id
    {
      if id in c2 {
        var k :| 0 <= k < |e2| && e2[k].0 == id;
        assert e[|e1| + k] == e2[k];
      } else {
        var k :| 0 <= k < |e1| && e1[k].0 == id;
        assert e[k] == e1[k];
      }
    }
  }

  /**
   * The entries of `c` in an order the caller does not choose: the entry
   * sequence a hash map's iterator yields. Each step picks any key not yet
   * listed.
   */
  method Enumerate<T>(c: map<nat, T>) returns (e: seq<(nat, T)>)
    ensures IsEnumeration(e, c)
    ensures |e| == |c|
  {
    e := [];
    var rest := c.Keys;
    while rest != {}
      invariant rest <= c.Keys && |e| + |rest| == |c|
      invariant forall i :: 0 <= i < |e| ==> e[i].0 in c && c[e[i].0] == e[i].1 && e[i].0 !in rest
      invariant forall i, j :: 0 <= i < j < |e| ==> e[i].0 != e[j].0
      invariant forall id :: id in c && id !in rest ==> exists i :: 0 <= i < |e| && e[i].0 == id
      decreases rest
    {
      var id :| id in rest;
      ghost var prev := e;
      e := e + [(id, c[id])];
      rest := rest - {id};
      forall x | x in c && x !in rest
        ensures exists i :: 0 <= i < |e| && e[i].0 == x
      {
        if x == id {
          assert e[|prev|].0 == x;
        } else {
          var i :| 0 <= i < |prev| && prev[i].0 == x;
          assert e[i] == prev[i];
        }
      }
    }
  }
}

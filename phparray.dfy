/**
 * A PHP array with string keys: an ordered dictionary, written as the
 * sequence of its (key, value) entries in insertion order.
 */
module PhpArray {
  import opened Php

  type Entries<V> = seq<(string, V)>

  /** array_keys(): the keys in entry order. */
  function Keys<V>(e: Entries<V>): (ks: seq<string>)
    ensures |ks| == |e|
    ensures forall i :: 0 <= i < |e| ==> ks[i] == e[i].0
  {
    if e == [] then [] else [e[0].0] + Keys(e[1..])
  }

  /** The keys of all entries but the last, then the last key. */
  lemma KeysInit<V>(e: Entries<V>)
    requires e != []
    ensures Keys(e) == Keys(e[..|e| - 1]) + [e[|e| - 1].0]
  {
    var pre := e[..|e| - 1];
    var ks, rhs := Keys(e), Keys(pre) + [e[|e| - 1].0];
    assert |ks| == |rhs|;
    forall i | 0 <= i < |e| ensures ks[i] == rhs[i] {
      if i < |e| - 1 {
        assert pre[i] == e[i];
      }
    }
  }

  /** The keys of two entry sequences, one after the other. */
  lemma {:induction false} KeysAppend<V>(a: Entries<V>, b: Entries<V>)
    ensures Keys(a + b) == Keys(a) + Keys(b)
  {
    var ks, rhs := Keys(a + b), Keys(a) + Keys(b);
    assert |ks| == |rhs|;
    forall i | 0 <= i < |a + b| ensures ks[i] == rhs[i] {
      if i < |a| {
        assert (a + b)[i] == a[i];
      } else {
        assert (a + b)[i] == b[i - |a|];
      }
    }
  }

  /** isset($a[k]) for non-null values, array_key_exists() in general. */
  predicate HasKey<V>(e: Entries<V>, k: string) {
    k in Keys(e)
  }

  /** Every PHP array has pairwise different keys. */
  predicate DistinctKeys<V>(e: Entries<V>) {
    forall i, j :: 0 <= i < j < |e| ==> e[i].0 != e[j].0
  }

  /** Keys in strictly ascending strcmp order, as ksort() leaves them. */
  predicate KeysAscending<V>(e: Entries<V>) {
    forall i, j :: 0 <= i < j < |e| ==> StrLess(e[i].0, e[j].0)
  }

  /** $a[k]: the value stored under `k`. */
  function Get<V>(e: Entries<V>, k: string): V
    requires HasKey(e, k)
  {
    if e[0].0 == k then e[0].1 else Get(e[1..], k)
  }

  /** With distinct keys, the value stored under an entry's key is that entry's value. */
  lemma {:induction false} GetAt<V>(e: Entries<V>, i: nat)
    requires DistinctKeys(e) && i < |e|
    ensures HasKey(e, e[i].0) && Get(e, e[i].0) == e[i].1
  {
    assert Keys(e)[i] == e[i].0;
    if i > 0 {
      GetAt(e[1..], i - 1);
    }
  }

  /** The value under any present key sits in some entry with that key. */
  lemma {:induction false} GetIn<V>(e: Entries<V>, k: string)
    requires HasKey(e, k)
    ensures exists i :: 0 <= i < |e| && e[i] == (k, Get(e, k))
  {
    if e[0].0 != k {
      assert HasKey(e[1..], k) by {
        var i :| 0 <= i < |e| && Keys(e)[i] == k;
        assert Keys(e[1..])[i - 1] == k;
      }
      GetIn(e[1..], k);
      var i :| 0 <= i < |e[1..]| && e[1..][i] == (k, Get(e[1..], k));
      assert e[i + 1] == (k, Get(e, k));
    }
  }

  /**
   * `$a[k] = v`: an existing key keeps its place and gets the new value; a
   * new key is appended at the end. No other key or value changes.
   */
  function Put<V>(e: Entries<V>, k: string, v: V): (r: Entries<V>)
    ensures Keys(r) == if HasKey(e, k) then Keys(e) else Keys(e) + [k]
    ensures HasKey(r, k) && Get(r, k) == v
    ensures forall j :: j != k && HasKey(e, j) ==> Get(r, j) == Get(e, j)
  {
    if e == [] then
      assert Keys([(k, v)]) == [k];
      [(k, v)]
    else if e[0].0 == k then
      HeadAssigned(e, k, v);
      [(k, v)] + e[1..]
    else
      var p := Put(e[1..], k, v);
      ConsAssigned(e[0], e[1..], p, k, v);
      assert e == [e[0]] + e[1..];
      [e[0]] + p
  }

  /** `p` is `t` after assigning `v` to `k`, stated on keys and lookups. */
  ghost predicate Assigned<V>(t: Entries<V>, p: Entries<V>, k: string, v: V) {
    && Keys(p) == (if HasKey(t, k) then Keys(t) else Keys(t) + [k])
    && HasKey(p, k) && Get(p, k) == v
    && forall j :: j != k && HasKey(t, j) ==> Get(p, j) == Get(t, j)
  }

  /** Overwriting the first entry's value. */
  lemma HeadAssigned<V>(e: Entries<V>, k: string, v: V)
    requires e != [] && e[0].0 == k
    ensures Assigned(e, [(k, v)] + e[1..], k, v)
  {
    var r := [(k, v)] + e[1..];
    assert r[1..] == e[1..];
    assert Keys(r) == [k] + Keys(e[1..]) && Keys(e) == [k] + Keys(e[1..]);
  }

  /** An entry with another key, put in front of both, keeps the assignment relation. */
  lemma ConsAssigned<V>(x: (string, V), t: Entries<V>, p: Entries<V>, k: string, v: V)
    requires x.0 != k && Assigned(t, p, k, v)
    ensures Assigned([x] + t, [x] + p, k, v)
  {
    var t', p' := [x] + t, [x] + p;
    assert t'[1..] == t && p'[1..] == p;
    assert Keys(t') == [x.0] + Keys(t) && Keys(p') == [x.0] + Keys(p);
    assert HasKey(t', k) == HasKey(t, k);
    forall j | j != k && HasKey(t', j) ensures Get(p', j) == Get(t', j) {
      if j != x.0 {
        assert HasKey(t, j);
      }
    }
  }

  /** A key is present if it is the first entry's or present in the rest. */
  lemma HasKeyCons<V>(e: Entries<V>, k: string)
    requires e != []
    ensures HasKey(e, k) <==> e[0].0 == k || HasKey(e[1..], k)
  {
    assert Keys(e) == [e[0].0] + Keys(e[1..]);
  }

  /** Assigning past a first entry with another key leaves that entry in front. */
  lemma PutCons<V>(e: Entries<V>, k: string, v: V)
    requires e != [] && e[0].0 != k
    ensures Put(e, k, v) == [e[0]] + Put(e[1..], k, v)
  {
  }

  /** Assigning to a key that is not yet present appends one entry. */
  lemma {:induction false} PutAppends<V>(e: Entries<V>, k: string, v: V)
    requires !HasKey(e, k)
    ensures Put(e, k, v) == e + [(k, v)]
  {
    if e != [] {
      var t := e[1..];
      HasKeyCons(e, k);
      PutCons(e, k, v);
      PutAppends(t, k, v);
      assert e == [e[0]] + t;
      assert [e[0]] + (t + [(k, v)]) == e + [(k, v)];
    }
  }

  /** Assignment keeps the keys pairwise different. */
  lemma PutDistinct<V>(e: Entries<V>, k: string, v: V)
    requires DistinctKeys(e)
    ensures DistinctKeys(Put(e, k, v))
  {
    var r := Put(e, k, v);
    forall i, j | 0 <= i < j < |r| ensures r[i].0 != r[j].0 {
      assert Keys(r)[i] == r[i].0 && Keys(r)[j] == r[j].0;
      if !HasKey(e, k) && j == |e| {
        assert Keys(e)[i] == e[i].0;
      } else {
        assert Keys(e)[i] == e[i].0 && Keys(e)[j] == e[j].0;
      }
    }
  }

  /** Both sequences hold the same entries, in any order. */
  ghost predicate SameEntries<V>(r: Entries<V>, e: Entries<V>) {
    (forall i :: 0 <= i < |r| ==> r[i] in e) && (forall i :: 0 <= i < |e| ==> e[i] in r)
  }

  /** Inserts one entry into entries sorted by ascending key. */
  function Insert<V>(x: (string, V), e: Entries<V>): Entries<V>
  {
    if e == [] then [x]
    else if StrLess(x.0, e[0].0) then [x] + e
    else [e[0]] + Insert(x, e[1..])
  }

  /** Insertion keeps every entry and adds only the new one. */
  lemma {:induction false} InsertMembers<V>(x: (string, V), e: Entries<V>)
    ensures |Insert(x, e)| == |e| + 1
    ensures x in Insert(x, e)
    ensures forall i :: 0 <= i < |e| ==> e[i] in Insert(x, e)
    ensures forall i :: 0 <= i < |Insert(x, e)| ==> Insert(x, e)[i] == x || Insert(x, e)[i] in e
  {
    if e != [] && !StrLess(x.0, e[0].0) {
      var tail := Insert(x, e[1..]);
      InsertMembers(x, e[1..]);
      var r := Insert(x, e);
      assert r == [e[0]] + tail;
      forall i | 0 <= i < |e| ensures e[i] in r {
        if i > 0 { assert e[1..][i - 1] == e[i]; }
      }
      forall i | 0 <= i < |r| ensures r[i] == x || r[i] in e {
        if i > 0 { assert r[i] == tail[i - 1]; }
      }
    }
  }

  /** Insertion of a new key into ascending entries keeps them ascending. */
  lemma {:induction false} InsertAscending<V>(x: (string, V), e: Entries<V>)
    requires KeysAscending(e)
    requires forall i :: 0 <= i < |e| ==> e[i].0 != x.0
    ensures KeysAscending(Insert(x, e))
  {
    if e != [] && !StrLess(x.0, e[0].0) {
      var tail := Insert(x, e[1..]);
      InsertAscending(x, e[1..]);
      InsertMembers(x, e[1..]);
      StrLessTotal(x.0, e[0].0);
      var r := Insert(x, e);
      assert r == [e[0]] + tail;
      forall i | 0 <= i < |tail| ensures StrLess(e[0].0, tail[i].0) {
        if tail[i] != x {
          var j :| 0 <= j < |e[1..]| && e[1..][j] == tail[i];
          assert e[j + 1] == tail[i];
        }
      }
    } else if e != [] {
      var r := Insert(x, e);
      forall i, j | 0 <= i < j < |r| ensures StrLess(r[i].0, r[j].0) {
        if i == 0 && j > 1 {
          StrLessTransitive(x.0, e[0].0, e[j - 1].0);
        }
      }
    }
  }

  lemma InsertProperties<V>(x: (string, V), e: Entries<V>)
    requires KeysAscending(e)
    requires forall i :: 0 <= i < |e| ==> e[i].0 != x.0
    ensures |Insert(x, e)| == |e| + 1
    ensures KeysAscending(Insert(x, e))
    ensures x in Insert(x, e)
    ensures forall i :: 0 <= i < |e| ==> e[i] in Insert(x, e)
    ensures forall i :: 0 <= i < |Insert(x, e)| ==> Insert(x, e)[i] == x || Insert(x, e)[i] in e
  {
    InsertMembers(x, e);
    InsertAscending(x, e);
  }

  /**
   * ksort() with string keys: the same entries, reordered so that the keys
   * ascend in strcmp order.
   */
  function Ksort<V>(e: Entries<V>): (r: Entries<V>)
    requires DistinctKeys(e)
    ensures |r| == |e|
    ensures KeysAscending(r)
    ensures SameEntries(r, e)
  {
    if e == [] then []
    else
      var rest := Ksort(e[1..]);
      KsortStep(e, rest);
      Insert(e[0], rest)
  }

  lemma KsortStep<V>(e: Entries<V>, rest: Entries<V>)
    requires DistinctKeys(e) && e != []
    requires KeysAscending(rest) && SameEntries(rest, e[1..])
    ensures KeysAscending(Insert(e[0], rest)) && |Insert(e[0], rest)| == |rest| + 1
    ensures SameEntries(Insert(e[0], rest), e)
  {
    forall i | 0 <= i < |rest| ensures rest[i].0 != e[0].0 {
      var j :| 0 <= j < |e[1..]| && e[1..][j] == rest[i];
      assert e[j + 1] == rest[i];
    }
    InsertProperties(e[0], rest);
    var r := Insert(e[0], rest);
    forall i | 0 <= i < |e| ensures e[i] in r {
      if i > 0 {
        assert e[1..][i - 1] == e[i];
      }
    }
    forall i | 0 <= i < |r| ensures r[i] in e {
      if r[i] != e[0] {
        var j :| 0 <= j < |rest| && rest[j] == r[i];
        var k :| 0 <= k < |e[1..]| && e[1..][k] == rest[j];
        assert e[k + 1] == r[i];
      }
    }
  }

  /** Ascending keys are pairwise different. */
  lemma AscendingDistinct<V>(e: Entries<V>)
    requires KeysAscending(e)
    ensures DistinctKeys(e)
  {
    forall i, j | 0 <= i < j < |e| ensures e[i].0 != e[j].0 {
      if e[i].0 == e[j].0 {
        StrLessIrreflexive(e[i].0);
      }
    }
  }

  /**
   * Two arrays with distinct keys that hold the same entries agree on every
   * key: ksort() changes neither what is stored nor under which key.
   */
  lemma {:induction false} SameEntriesSameLookups<V>(e: Entries<V>, r: Entries<V>, k: string)
    requires DistinctKeys(e) && DistinctKeys(r)
    requires SameEntries(r, e)
    ensures HasKey(r, k) <==> HasKey(e, k)
    ensures HasKey(e, k) ==> Get(r, k) == Get(e, k)
  {
    if HasKey(e, k) {
      GetIn(e, k);
      var i :| 0 <= i < |e| && e[i] == (k, Get(e, k));
      var j :| 0 <= j < |r| && r[j] == e[i];
      GetAt(r, j);
    }
    if HasKey(r, k) {
      GetIn(r, k);
      var j :| 0 <= j < |r| && r[j] == (k, Get(r, k));
      var i :| 0 <= i < |e| && e[i] == r[j];
      GetAt(e, i);
    }
  }

  /** ksort() keeps the key set and every value, and leaves the keys ascending. */
  lemma KsortLookups<V>(e: Entries<V>, k: string)
    requires DistinctKeys(e)
    ensures KeysAscending(Ksort(e)) && DistinctKeys(Ksort(e))
    ensures HasKey(Ksort(e), k) <==> HasKey(e, k)
    ensures HasKey(e, k) ==> Get(Ksort(e), k) == Get(e, k)
  {
    AscendingDistinct(Ksort(e));
    SameEntriesSameLookups(e, Ksort(e), k);
  }
}

/**
 * Ruby's `Hash`, which remembers insertion order: a sequence of key/value
 * pairs. `Put` is `h[k] = v` (a present key keeps its position, a new one is
 * appended), `Merge` is `merge`, `Delete` is `delete`, `Restrict` is what is
 * left after deleting every key outside a set. The class `Hash` is a hash
 * object that callers share and the core changes in place.
 */
module RubyHash {
  import opened Wrappers

  /** Every Ruby hash has unique keys. */
  predicate UniqueKeys<V>(e: seq<(string, V)>) {
    forall i, j :: 0 <= i < j < |e| ==> e[i].0 != e[j].0
  }

  function Keys<V>(e: seq<(string, V)>): (ks: seq<string>)
    ensures |ks| == |e| && forall i :: 0 <= i < |e| ==> ks[i] == e[i].0
  {
    seq(|e|, i requires 0 <= i < |e| => e[i].0)
  }

  /** `h[k]`, with `None` for a missing key. */
  function Get<V>(e: seq<(string, V)>, k: string): Option<V> {
    if |e| == 0 then None
    else if e[0].0 == k then Some(e[0].1)
    else Get(e[1..], k)
  }

  lemma {:induction false} GetMissing<V>(e: seq<(string, V)>, k: string)
    ensures Get(e, k).None? <==> k !in Keys(e)
  {
    if |e| > 0 {
      GetMissing(e[1..], k);
      assert Keys(e) == [e[0].0] + Keys(e[1..]);
    }
  }

  /** Looking up in a hash with a first entry `x` in front of `rest`. */
  lemma ConsLookup<V>(x: (string, V), rest: seq<(string, V)>)
    ensures forall k' :: Get([x] + rest, k') == if x.0 == k' then Some(x.1) else Get(rest, k')
    ensures Keys([x] + rest) == [x.0] + Keys(rest)
  {
    assert ([x] + rest)[1..] == rest;
  }

  /** `h[k] = v`. */
  function Put<V>(e: seq<(string, V)>, k: string, v: V): (r: seq<(string, V)>)
    ensures Get(r, k) == Some(v)
    ensures forall k' :: k' != k ==> Get(r, k') == Get(e, k')
    ensures k in Keys(e) ==> Keys(r) == Keys(e)
    ensures k !in Keys(e) ==> Keys(r) == Keys(e) + [k]
  {
    if |e| == 0 then [(k, v)]
    else
      ConsLookup(e[0], e[1..]);
      assert e == [e[0]] + e[1..];
      if e[0].0 == k then
        ConsLookup((k, v), e[1..]);
        [(k, v)] + e[1..]
      else
        var rest := Put(e[1..], k, v);
        ConsLookup(e[0], rest);
        [e[0]] + rest
  }

  lemma {:induction false} PutEntries<V>(e: seq<(string, V)>, k: string, v: V)
    ensures forall entry :: entry in Put(e, k, v) ==> entry == (k, v) || entry in e
  {
    if |e| > 0 && e[0].0 != k {
      PutEntries(e[1..], k, v);
    }
  }

  lemma {:induction false} PutKeepsKeysUnique<V>(e: seq<(string, V)>, k: string, v: V)
    requires UniqueKeys(e)
    ensures UniqueKeys(Put(e, k, v))
  {
    var r := Put(e, k, v);
    forall i, j | 0 <= i < j < |r| ensures r[i].0 != r[j].0 {
      assert Keys(r)[i] == r[i].0 && Keys(r)[j] == r[j].0;
      if k !in Keys(e) && j == |e| {
        assert Keys(e)[i] == e[i].0;
      } else {
        assert Keys(e)[i] == e[i].0 && Keys(e)[j] == e[j].0;
      }
    }
  }

  /** `h.merge(other)`: the pairs of `other` stored one by one, in its order. */
  function Merge<V>(e: seq<(string, V)>, other: seq<(string, V)>): (r: seq<(string, V)>)
    decreases |other|
  {
    if |other| == 0 then e else Merge(Put(e, other[0].0, other[0].1), other[1..])
  }

  lemma {:induction false} MergeGet<V>(e: seq<(string, V)>, other: seq<(string, V)>, k: string)
    requires UniqueKeys(other)
    ensures Get(Merge(e, other), k) == if k in Keys(other) then Get(other, k) else Get(e, k)
    decreases |other|
  {
    if |other| > 0 {
      var e' := Put(e, other[0].0, other[0].1);
      var rest := other[1..];
      assert UniqueKeys(rest);
      MergeGet(e', rest, k);
      assert Keys(other) == [other[0].0] + Keys(rest);
      if k == other[0].0 {
        assert k !in Keys(rest) by {
          forall i | 0 <= i < |rest| ensures Keys(rest)[i] != k {
            assert other[i + 1] == rest[i];
          }
        }
      }
    }
  }

  lemma {:induction false} MergeKeepsKeysUnique<V>(e: seq<(string, V)>, other: seq<(string, V)>)
    requires UniqueKeys(e)
    ensures UniqueKeys(Merge(e, other))
    decreases |other|
  {
    if |other| > 0 {
      PutKeepsKeysUnique(e, other[0].0, other[0].1);
      MergeKeepsKeysUnique(Put(e, other[0].0, other[0].1), other[1..]);
    }
  }

  /** `h.delete(k)`. */
  function Delete<V>(e: seq<(string, V)>, k: string): (r: seq<(string, V)>)
    ensures |r| <= |e|
  {
    if |e| == 0 then []
    else if e[0].0 == k then e[1..]
    else [e[0]] + Delete(e[1..], k)
  }

  /** What remains of `h` once every key outside `keep` is deleted, in the original order. */
  function Restrict<V>(e: seq<(string, V)>, keep: set<string>): (r: seq<(string, V)>)
  {
    if |e| == 0 then []
    else if e[|e| - 1].0 in keep then Restrict(e[..|e| - 1], keep) + [e[|e| - 1]]
    else Restrict(e[..|e| - 1], keep)
  }

  lemma {:induction false} RestrictGet<V>(e: seq<(string, V)>, keep: set<string>, k: string)
    requires UniqueKeys(e)
    ensures Get(Restrict(e, keep), k) == if k in keep then Get(e, k) else None
  {
    if |e| > 0 {
      var init, last := e[..|e| - 1], e[|e| - 1];
      assert UniqueKeys(init);
      RestrictGet(init, keep, k);
      GetAppend(init, [last], k);
      if last.0 in keep {
        GetAppend(Restrict(init, keep), [last], k);
      }
      if k == last.0 {
        GetMissing(init, k);
        assert k !in Keys(init) by {
          forall i | 0 <= i < |init| ensures Keys(init)[i] != k {
            assert e[i] == init[i];
          }
        }
        RestrictKeys(init, keep);
        GetMissing(Restrict(init, keep), k);
      }
      assert e == init + [last];
    }
  }

  lemma {:induction false} GetAppend<V>(a: seq<(string, V)>, b: seq<(string, V)>, k: string)
    ensures Get(a + b, k) == if Get(a, k).Some? then Get(a, k) else Get(b, k)
  {
    if |a| > 0 {
      assert (a + b)[0] == a[0] && (a + b)[1..] == a[1..] + b;
      GetAppend(a[1..], b, k);
    } else {
      assert a + b == b;
    }
  }

  lemma {:induction false} RestrictKeys<V>(e: seq<(string, V)>, keep: set<string>)
    ensures forall k :: k in Keys(Restrict(e, keep)) ==> k in keep && k in Keys(e)
  {
    if |e| > 0 {
      var init := e[..|e| - 1];
      RestrictKeys(init, keep);
      forall k | k in Keys(init) ensures k in Keys(e) {
        var i :| 0 <= i < |init| && Keys(init)[i] == k;
        assert Keys(e)[i] == k;
      }
      assert Keys(e)[|e| - 1] == e[|e| - 1].0;
    }
  }

  /** Deleting a key that is absent from `a` leaves `a` alone. */
  lemma {:induction false} DeleteAfter<V>(a: seq<(string, V)>, b: seq<(string, V)>, k: string)
    requires k !in Keys(a)
    ensures Delete(a + b, k) == a + Delete(b, k)
  {
    if |a| > 0 {
      assert Keys(a)[0] == a[0].0;
      assert (a + b)[1..] == a[1..] + b;
      assert k !in Keys(a[1..]) by {
        forall i | 0 <= i < |a| - 1 ensures Keys(a[1..])[i] != k {
          assert Keys(a)[i + 1] == a[i + 1].0;
        }
      }
      DeleteAfter(a[1..], b, k);
      assert (a + b)[0] == a[0];
      assert a + Delete(b, k) == [a[0]] + (a[1..] + Delete(b, k));
    } else {
      assert a + b == b;
    }
  }

  lemma {:induction false} RestrictKeepsKeysUnique<V>(e: seq<(string, V)>, keep: set<string>)
    requires UniqueKeys(e)
    ensures UniqueKeys(Restrict(e, keep))
    ensures forall entry :: entry in Restrict(e, keep) ==> entry in e
  {
    if |e| > 0 {
      var init := e[..|e| - 1];
      RestrictKeepsKeysUnique(init, keep);
      RestrictKeys(init, keep);
      var last := e[|e| - 1];
      assert forall entry :: entry in init ==> entry in e;
      if last.0 in keep {
        var r := Restrict(init, keep);
        assert last.0 !in Keys(init) by {
          forall i | 0 <= i < |init| ensures Keys(init)[i] != last.0 {
            assert init[i] == e[i];
          }
        }
        assert last.0 !in Keys(r);
        forall i, j | 0 <= i < j < |r + [last]| ensures (r + [last])[i].0 != (r + [last])[j].0 {
          if j == |r| {
            assert Keys(r)[i] == r[i].0;
          }
        }
      }
    }
  }

  /**
   * One step of deleting, in hash order, every key outside `keep`: after the
   * first `i` entries are filtered, filtering entry `i` extends the filtered
   * prefix by one.
   */
  lemma RestrictStep<V>(e: seq<(string, V)>, i: nat, keep: set<string>)
    requires UniqueKeys(e) && i < |e|
    ensures e[i].0 !in keep ==>
              Delete(Restrict(e[..i], keep) + e[i..], e[i].0) == Restrict(e[..i + 1], keep) + e[i + 1..]
    ensures e[i].0 in keep ==>
              Restrict(e[..i], keep) + e[i..] == Restrict(e[..i + 1], keep) + e[i + 1..]
  {
    var key := e[i].0;
    assert e[..i + 1][..i] == e[..i];
    if key !in keep {
      assert key !in Keys(Restrict(e[..i], keep)) by {
        RestrictKeys(e[..i], keep);
        forall j | 0 <= j < i ensures Keys(e[..i])[j] != key {
          assert Keys(e)[j] == e[j].0;
        }
      }
      DeleteAfter(Restrict(e[..i], keep), e[i..], key);
      assert e[i..][1..] == e[i + 1..];
    } else {
      assert e[i..] == [e[i]] + e[i + 1..];
    }
  }

  /** Filtering keeps the order: the filtered concatenation is the concatenation of the filtered parts. */
  lemma {:induction false} RestrictAppend<V>(a: seq<(string, V)>, b: seq<(string, V)>, keep: set<string>)
    ensures Restrict(a + b, keep) == Restrict(a, keep) + Restrict(b, keep)
    decreases |b|
  {
    if |b| == 0 {
      assert a + b == a;
    } else {
      var init := b[..|b| - 1];
      RestrictAppend(a, init, keep);
      assert (a + b)[..|a + b| - 1] == a + init;
      assert (a + b)[|a + b| - 1] == b[|b| - 1];
    }
  }

  /** `delete` keeps only entries that were there, so the keys stay unique. */
  lemma {:induction false} DeleteKeepsKeysUnique<V>(e: seq<(string, V)>, k: string)
    requires UniqueKeys(e)
    ensures UniqueKeys(Delete(e, k))
    ensures forall entry :: entry in Delete(e, k) ==> entry in e
  {
    if |e| > 0 && e[0].0 != k {
      var rest := Delete(e[1..], k);
      DeleteKeepsKeysUnique(e[1..], k);
      var r := [e[0]] + rest;
      forall i, j | 0 <= i < j < |r| ensures r[i].0 != r[j].0 {
        if i == 0 {
          assert r[j] in e[1..];
          var m :| 0 <= m < |e[1..]| && e[1..][m] == r[j];
          assert e[m + 1] == r[j];
        } else {
          assert r[i] == rest[i - 1] && r[j] == rest[j - 1];
        }
      }
    }
  }

  /** A Ruby hash object, shared by reference and changed in place. */
  class Hash<V> {
    var entries: seq<(string, V)>

    ghost predicate Valid()
      reads this
    {
      UniqueKeys(entries)
    }

    constructor (init: seq<(string, V)>)
      requires UniqueKeys(init)
      ensures Valid() && entries == init
    {
      entries := init;
    }

    /** `h.merge!(other)` */
    method MergeInPlace(other: seq<(string, V)>)
      requires Valid()
      modifies this
      ensures Valid() && entries == Merge(old(entries), other)
    {
      MergeKeepsKeysUnique(entries, other);
      entries := Merge(entries, other);
    }

    /** `h.delete(k)` */
    method Remove(k: string)
      requires Valid()
      modifies this
      ensures Valid() && entries == Delete(old(entries), k)
    {
      DeleteKeepsKeysUnique(entries, k);
      entries := Delete(entries, k);
    }
  }
}

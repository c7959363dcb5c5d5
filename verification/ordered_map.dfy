/** Insertion-ordered maps, as the program uses `IndexMap`: a sequence of
    key/value pairs. `Insert` replaces the value of an existing key in its
    original slot or appends a new key at the end; `ShiftRemove` deletes a key
    and shifts the later entries down, so the remaining order is kept. */
module OrderedMap {
  import opened Wrappers

  type Entries<K, V> = seq<(K, V)>

  function Keys<K, V>(m: Entries<K, V>): (ks: seq<K>)
    ensures |ks| == |m|
    ensures forall i :: 0 <= i < |m| ==> ks[i] == m[i].0
  {
    seq(|m|, i requires 0 <= i < |m| => m[i].0)
  }

  function Values<K, V>(m: Entries<K, V>): (vs: seq<V>)
    ensures |vs| == |m|
    ensures forall i :: 0 <= i < |m| ==> vs[i] == m[i].1
  {
    seq(|m|, i requires 0 <= i < |m| => m[i].1)
  }

  /** No key occurs twice: the invariant of every `IndexMap`. */
  predicate DistinctKeys<K(==), V>(m: Entries<K, V>) {
    forall i, j :: 0 <= i < j < |m| ==> m[i].0 != m[j].0
  }

  /** Slot of the first entry with key `k`, found by a front-to-back scan. */
  function IndexOf<K(==), V>(m: Entries<K, V>, k: K): (r: Option<nat>)
    ensures r.Some? <==> k in Keys(m)
    ensures r.Some? ==> r.value < |m| && m[r.value].0 == k
    ensures r.Some? ==> forall j :: 0 <= j < r.value ==> m[j].0 != k
  {
    if |m| == 0 then None
    else if m[0].0 == k then Some(0)
    else
      match IndexOf(m[1..], k)
      case None => (assert Keys(m) == [m[0].0] + Keys(m[1..]); None)
      case Some(i) => Some(i + 1)
  }

  /** `IndexMap::get` */
  function Get<K(==), V>(m: Entries<K, V>, k: K): (r: Option<V>)
    ensures r.Some? <==> k in Keys(m)
    ensures r.Some? ==> exists i :: 0 <= i < |m| && m[i] == (k, r.value)
  {
    match IndexOf(m, k)
    case None => None
    case Some(i) => Some(m[i].1)
  }

  /** `IndexMap::insert`: returns the new map and the value it replaced. */
  function Insert<K(==), V>(m: Entries<K, V>, k: K, v: V): (r: (Entries<K, V>, Option<V>))
    ensures k !in Keys(m) ==> r.0 == m + [(k, v)] && r.1 == None
    ensures k in Keys(m) ==>
      var i := IndexOf(m, k).value;
      r.0 == m[i := (k, v)] && r.1 == Some(m[i].1)
    ensures r.1 == Get(m, k)
    ensures k in Keys(m) ==> Keys(r.0) == Keys(m)
    ensures k !in Keys(m) ==> Keys(r.0) == Keys(m) + [k]
    ensures DistinctKeys(m) ==> DistinctKeys(r.0)
  {
    match IndexOf(m, k)
    case None => (m + [(k, v)], None)
    case Some(i) => (m[i := (m[i].0, v)], Some(m[i].1))
  }

  /** `IndexMap::shift_remove`: returns the new map and the value it removed. */
  function ShiftRemove<K(==), V>(m: Entries<K, V>, k: K): (r: (Entries<K, V>, Option<V>))
    ensures k !in Keys(m) ==> r == (m, None)
    ensures k in Keys(m) ==>
      var i := IndexOf(m, k).value;
      r.0 == m[..i] + m[i + 1..] && r.1 == Some(m[i].1)
    ensures r.1 == Get(m, k)
    ensures |r.0| == |m| - (if k in Keys(m) then 1 else 0)
    ensures DistinctKeys(m) ==> DistinctKeys(r.0)
  {
    match IndexOf(m, k)
    case None => (m, None)
    case Some(i) =>
      CutKeepsDistinct(m, i);
      (m[..i] + m[i + 1..], Some(m[i].1))
  }

  /** Cutting a slot out keeps the remaining keys distinct. */
  lemma CutKeepsDistinct<K, V>(m: Entries<K, V>, i: nat)
    requires i < |m|
    ensures DistinctKeys(m) ==> DistinctKeys(m[..i] + m[i + 1..])
  {
    var r := m[..i] + m[i + 1..];
    forall a, b | 0 <= a < b < |r| && DistinctKeys(m) ensures r[a].0 != r[b].0 {
      var ia := if a < i then a else a + 1;
      var ib := if b < i then b else b + 1;
      assert r[a] == m[ia] && r[b] == m[ib];
    }
  }

  /** After an insert, the key maps to the inserted value. */
  lemma GetAfterInsert<K, V>(m: Entries<K, V>, k: K, v: V)
    ensures Get(Insert(m, k, v).0, k) == Some(v)
  {
    var m' := Insert(m, k, v).0;
    if k in Keys(m) {
      var i := IndexOf(m, k).value;
      assert m'[i] == (k, v);
      assert forall j :: 0 <= j < i ==> m'[j] == m[j];
      assert IndexOf(m', k) == Some(i);
    } else {
      assert m'[|m|] == (k, v);
      assert forall j :: 0 <= j < |m| ==> m'[j] == m[j];
      assert IndexOf(m', k) == Some(|m|);
    }
  }

  /** An insert leaves every other key's value unchanged. */
  lemma GetOtherAfterInsert<K, V>(m: Entries<K, V>, k: K, v: V, k': K)
    requires k' != k
    ensures Get(Insert(m, k, v).0, k') == Get(m, k')
  {
    var m' := Insert(m, k, v).0;
    if k' in Keys(m) {
      var x := IndexOf(m, k').value;
      InsertKeepsOtherSlot(m, k, v, x);
      forall j | 0 <= j < x ensures m'[j].0 != k' {
        assert Keys(m')[j] == Keys(m)[j];
      }
      IndexOfFirst(m', k', x);
    } else {
      assert k' !in Keys(m');
    }
  }

  /** An insert of `k` keeps every slot of another key where it was. */
  lemma InsertKeepsOtherSlot<K, V>(m: Entries<K, V>, k: K, v: V, x: nat)
    requires x < |m| && m[x].0 != k
    ensures |Insert(m, k, v).0| >= |m|
    ensures Insert(m, k, v).0[x] == m[x]
  {
  }

  /** After a removal from a map with distinct keys, the key is absent. */
  lemma GetAfterRemove<K, V>(m: Entries<K, V>, k: K)
    requires DistinctKeys(m)
    ensures Get(ShiftRemove(m, k).0, k) == None
  {
    var m' := ShiftRemove(m, k).0;
    if k in Keys(m) {
      var i := IndexOf(m, k).value;
      assert forall j :: 0 <= j < |m'| ==> m'[j] == (if j < i then m[j] else m[j + 1]);
      assert k !in Keys(m');
    }
  }

  /** The slot of `k` is the first slot holding `k`. */
  lemma IndexOfFirst<K, V>(m: Entries<K, V>, k: K, i: nat)
    requires i < |m| && m[i].0 == k
    requires forall j :: 0 <= j < i ==> m[j].0 != k
    ensures IndexOf(m, k) == Some(i)
  {
    assert Keys(m)[i] == k;
  }

  /** A removal leaves every other key's value unchanged. */
  lemma GetOtherAfterRemove<K, V>(m: Entries<K, V>, k: K, k': K)
    requires k' != k
    ensures Get(ShiftRemove(m, k).0, k') == Get(m, k')
  {
    if k in Keys(m) {
      var i := IndexOf(m, k).value;
      if k' in Keys(m) {
        var x := IndexOf(m, k').value;
        if x < i {
          RemoveKeepsSlotBefore(m, i, x, k');
        } else {
          RemoveShiftsSlotAfter(m, i, x, k');
        }
      } else {
        RemoveAddsNoKey(m, i, k');
      }
    }
  }

  /** Dropping slot `i` keeps the first slot `x < i` of `k'` where it was. */
  lemma RemoveKeepsSlotBefore<K, V>(m: Entries<K, V>, i: nat, x: nat, k': K)
    requires x < i < |m| && m[x].0 == k'
    requires forall j :: 0 <= j < x ==> m[j].0 != k'
    ensures Get(m[..i] + m[i + 1..], k') == Some(m[x].1)
  {
    var m' := m[..i] + m[i + 1..];
    assert m'[x] == m[x];
    forall j | 0 <= j < x ensures m'[j].0 != k' {
      assert m'[j] == m[j];
    }
    IndexOfFirst(m', k', x);
  }

  /** Dropping slot `i` moves the first slot `x > i` of `k'` down by one. */
  lemma RemoveShiftsSlotAfter<K, V>(m: Entries<K, V>, i: nat, x: nat, k': K)
    requires i < x < |m| && m[x].0 == k'
    requires forall j :: 0 <= j < x ==> m[j].0 != k'
    ensures Get(m[..i] + m[i + 1..], k') == Some(m[x].1)
  {
    var m' := m[..i] + m[i + 1..];
    assert m'[x - 1] == m[x];
    forall j | 0 <= j < x - 1 ensures m'[j].0 != k' {
      if j < i { assert m'[j] == m[j]; } else { assert m'[j] == m[j + 1]; }
    }
    IndexOfFirst(m', k', x - 1);
  }

  /** Dropping a slot brings in no key. */
  lemma RemoveAddsNoKey<K, V>(m: Entries<K, V>, i: nat, k': K)
    requires i < |m| && k' !in Keys(m)
    ensures Get(m[..i] + m[i + 1..], k') == None
  {
    var m' := m[..i] + m[i + 1..];
    forall j | 0 <= j < |m'| ensures m'[j].0 != k' {
      if j < i { assert m'[j] == m[j]; } else { assert m'[j] == m[j + 1]; }
      assert Keys(m)[if j < i then j else j + 1] != k';
    }
  }


  /** Removal keeps the relative order of the remaining keys: the remaining
      key sequence is the old one with `k` filtered out. */
  lemma RemoveKeepsOrder<K, V>(m: Entries<K, V>, k: K)
    requires DistinctKeys(m)
    ensures Keys(ShiftRemove(m, k).0) == Without(Keys(m), k)
  {
    if k in Keys(m) {
      var i := IndexOf(m, k).value;
      KeysAroundSlot(m, i);
      KeyNotAround(m, i);
      WithoutMiddle(Keys(m[..i]), Keys(m[i + 1..]), k);
      KeysConcat(m[..i], m[i + 1..]);
    } else {
      WithoutAbsent(Keys(m), k);
    }
  }

  lemma KeysAroundSlot<K, V>(m: Entries<K, V>, i: nat)
    requires i < |m|
    ensures Keys(m) == Keys(m[..i]) + [m[i].0] + Keys(m[i + 1..])
  {
    assert m == m[..i] + [m[i]] + m[i + 1..];
    KeysConcat(m[..i] + [m[i]], m[i + 1..]);
    KeysConcat(m[..i], [m[i]]);
    assert Keys([m[i]]) == [m[i].0];
  }

  /** With distinct keys, the key of a slot occurs in no other slot. */
  lemma KeyNotAround<K, V>(m: Entries<K, V>, i: nat)
    requires DistinctKeys(m) && i < |m|
    ensures m[i].0 !in Keys(m[..i]) && m[i].0 !in Keys(m[i + 1..])
  {
    var a, b := m[..i], m[i + 1..];
    forall j | 0 <= j < |a| ensures Keys(a)[j] != m[i].0 {
      assert a[j] == m[j];
    }
    forall j | 0 <= j < |b| ensures Keys(b)[j] != m[i].0 {
      assert b[j] == m[i + 1 + j];
    }
  }

  /** A key appended to a map that lacks it is found in the last slot. */
  lemma IndexOfAppended<K, V>(m: Entries<K, V>, k: K, v: V)
    requires k !in Keys(m)
    ensures IndexOf(m + [(k, v)], k) == Some(|m|)
  {
    var m' := m + [(k, v)];
    assert Keys(m')[|m|] == k;
    forall j | 0 <= j < |m| ensures m'[j].0 != k {
      assert m'[j].0 == Keys(m)[j];
    }
  }

  /** The keys of two runs of slots, one after the other. */
  lemma KeysConcat<K, V>(a: Entries<K, V>, b: Entries<K, V>)
    ensures Keys(a + b) == Keys(a) + Keys(b)
  {
  }

  lemma WithoutMiddle<T>(a: seq<T>, b: seq<T>, x: T)
    requires x !in a && x !in b
    ensures Without(a + [x] + b, x) == a + b
  {
    WithoutAbsent(a, x);
    WithoutAbsent(b, x);
    WithoutConcat(a + [x], b, x);
    WithoutConcat(a, [x], x);
    assert Without([x], x) == [] by {
      assert [x][1..] == [];
    }
    assert Without(a + [x], x) == a + [];
    assert a + [] == a;
  }

  /** `s` with every occurrence of `x` dropped, order otherwise unchanged. */
  function Without<T(==)>(s: seq<T>, x: T): (r: seq<T>)
    ensures x !in r
    ensures |r| <= |s|
  {
    if |s| == 0 then []
    else if s[0] == x then Without(s[1..], x)
    else [s[0]] + Without(s[1..], x)
  }

  lemma {:induction false} WithoutAbsent<T>(s: seq<T>, x: T)
    requires x !in s
    ensures Without(s, x) == s
  {
    if |s| > 0 {
      assert x !in s[1..];
      WithoutAbsent(s[1..], x);
      assert s == [s[0]] + s[1..];
    }
  }

  lemma {:induction false} WithoutConcat<T>(a: seq<T>, b: seq<T>, x: T)
    ensures Without(a + b, x) == Without(a, x) + Without(b, x)
  {
    if |a| == 0 {
      assert a + b == b;
    } else {
      assert (a + b)[1..] == a[1..] + b;
      WithoutConcat(a[1..], b, x);
    }
  }
}

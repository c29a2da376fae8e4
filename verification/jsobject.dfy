/** Plain JavaScript objects with string keys, as the preference store holds them: a list of
    key/value pairs with distinct keys, in property-creation order (`Object.entries` order for keys
    that do not look like array indices). */
module JsObjects {
  import opened Wrappers

  type Entry<V> = (string, V)

  function Keys<V>(m: seq<Entry<V>>): (ks: seq<string>)
    ensures |ks| == |m| && forall i :: 0 <= i < |m| ==> ks[i] == m[i].0
  {
    seq(|m|, i requires 0 <= i < |m| => m[i].0)
  }

  predicate UniqueKeys<V>(m: seq<Entry<V>>) {
    forall i, j :: 0 <= i < |m| && 0 <= j < |m| && i != j ==> m[i].0 != m[j].0
  }

  predicate HasKey<V>(m: seq<Entry<V>>, k: string) {
    k in Keys(m)
  }

  /** `obj[k]`: the value stored under `k`, None for a missing property. */
  function Get<V>(m: seq<Entry<V>>, k: string): Option<V> {
    if |m| == 0 then None
    else if m[0].0 == k then Some(m[0].1)
    else Get(m[1..], k)
  }

  /** A missing property reads as None. */
  lemma {:induction false} GetMissing<V>(m: seq<Entry<V>>, k: string)
    requires !HasKey(m, k)
    ensures Get(m, k) == None
  {
    if |m| > 0 {
      assert Keys(m[1..]) == Keys(m)[1..];
      GetMissing(m[1..], k);
    }
  }

  /** A value read comes from some entry under that key. */
  lemma {:induction false} GetFound<V>(m: seq<Entry<V>>, k: string)
    requires Get(m, k).Some?
    ensures exists i :: 0 <= i < |m| && m[i] == (k, Get(m, k).value)
  {
    if m[0].0 != k {
      GetFound(m[1..], k);
      var i :| 0 <= i < |m| - 1 && m[1..][i] == (k, Get(m, k).value);
      assert m[i + 1] == m[1..][i];
    }
  }

  /** With distinct keys, the value at a key's position is what `Get` returns. */
  lemma {:induction false} GetAt<V>(m: seq<Entry<V>>, i: nat)
    requires UniqueKeys(m) && i < |m|
    ensures Get(m, m[i].0) == Some(m[i].1)
  {
    if i > 0 {
      assert m[0].0 != m[i].0;
      assert UniqueKeys(m[1..]) by {
        assert forall a :: 0 <= a < |m| - 1 ==> m[1..][a] == m[a + 1];
      }
      assert m[1..][i - 1] == m[i];
      GetAt(m[1..], i - 1);
    }
  }

  /** `obj[k] = v`: an existing property keeps its place and gets the new value; a new one is
      added at the end. */
  function Set<V>(m: seq<Entry<V>>, k: string, v: V): seq<Entry<V>> {
    if HasKey(m, k) then seq(|m|, i requires 0 <= i < |m| => if m[i].0 == k then (k, v) else m[i])
    else m + [(k, v)]
  }

  /** `Set` keeps the keys distinct and changes the key order only by appending a new key. */
  lemma SetKeys<V>(m: seq<Entry<V>>, k: string, v: V)
    requires UniqueKeys(m)
    ensures UniqueKeys(Set(m, k, v))
    ensures Keys(Set(m, k, v)) == if HasKey(m, k) then Keys(m) else Keys(m) + [k]
  {
    var r := Set(m, k, v);
    if HasKey(m, k) {
      assert forall i :: 0 <= i < |m| ==> r[i].0 == m[i].0;
    } else {
      assert forall i :: 0 <= i < |m| ==> r[i] == m[i];
    }
  }

  /** Every entry after `Set` is the new pair or the entry that was in its place before. */
  lemma SetEntries<V>(m: seq<Entry<V>>, k: string, v: V)
    ensures forall i :: 0 <= i < |Set(m, k, v)| ==> Set(m, k, v)[i] == (k, v) || (i < |m| && Set(m, k, v)[i] == m[i])
  {
  }

  /** After `Set`, `k` reads back as `v` and every other key reads as before. */
  lemma SetGet<V>(m: seq<Entry<V>>, k: string, v: V)
    requires UniqueKeys(m)
    ensures Get(Set(m, k, v), k) == Some(v)
    ensures forall k' :: k' != k ==> Get(Set(m, k, v), k') == Get(m, k')
  {
    var r := Set(m, k, v);
    SetKeys(m, k, v);
    var i :| 0 <= i < |r| && r[i].0 == k;
    GetAt(r, i);
    forall k' | k' != k ensures Get(r, k') == Get(m, k') {
      if HasKey(m, k') {
        var j :| 0 <= j < |m| && m[j].0 == k';
        GetAt(m, j);
        GetAt(r, j);
      } else {
        assert !HasKey(r, k');
        GetMissing(m, k');
        GetMissing(r, k');
      }
    }
  }
}

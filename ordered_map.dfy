/** The ordered name-to-handle map of the snippet merger (a BTreeMap in the
    source), modelled as an association list kept in strictly ascending key
    order. Iterating over the map is iterating over the list, so its order is
    the key order, whatever the order of insertions. */
module OrderedMap {
  import opened Base

  /** Strict lexicographic order on strings, character by character; a
      proper prefix comes first. This is the order of `String` keys. */
  predicate Less(a: string, b: string)
  {
    |b| > 0 && (|a| == 0 || a[0] < b[0] || (a[0] == b[0] && Less(a[1..], b[1..])))
  }

  lemma {:induction false} LessIrreflexive(a: string)
    ensures !Less(a, a)
  {
    if |a| > 0 {
      LessIrreflexive(a[1..]);
    }
  }

  lemma {:induction false} LessTransitive(a: string, b: string, c: string)
    requires Less(a, b) && Less(b, c)
    ensures Less(a, c)
  {
    if |a| > 0 && a[0] == b[0] && b[0] == c[0] {
      LessTransitive(a[1..], b[1..], c[1..]);
    }
  }

  lemma {:induction false} LessTotal(a: string, b: string)
    requires a != b
    ensures Less(a, b) || Less(b, a)
  {
    if |a| > 0 && |b| > 0 && a[0] == b[0] {
      assert a == [a[0]] + a[1..] && b == [b[0]] + b[1..];
      LessTotal(a[1..], b[1..]);
    }
  }

  /** Keys strictly ascend along the list, so no key occurs twice. */
  predicate Sorted<V>(l: seq<(string, V)>)
  {
    forall i, j :: 0 <= i < j < |l| ==> Less(l[i].0, l[j].0)
  }

  /** Every key of `l` comes after `a`. */
  predicate Above<V>(a: string, l: seq<(string, V)>)
  {
    forall i :: 0 <= i < |l| ==> Less(a, l[i].0)
  }

  /** The value stored under `k`, if any. */
  function Get<V>(l: seq<(string, V)>, k: string): Option<V>
  {
    if |l| == 0 then None
    else if l[0].0 == k then Some(l[0].1)
    else Get(l[1..], k)
  }

  lemma {:induction false} AboveAbsent<V>(a: string, l: seq<(string, V)>)
    requires Above(a, l)
    ensures Get(l, a) == None
  {
    if |l| > 0 {
      LessIrreflexive(a);
      AboveAbsent(a, l[1..]);
    }
  }

  /** In a sorted list each entry is what a lookup of its own key finds. */
  lemma {:induction false} GetAt<V>(l: seq<(string, V)>, i: nat)
    requires Sorted(l) && i < |l|
    ensures Get(l, l[i].0) == Some(l[i].1)
  {
    if i > 0 {
      LessIrreflexive(l[0].0);
      GetAt(l[1..], i - 1);
    }
  }

  /** A key that a lookup finds has an entry in the list. */
  lemma {:induction false} GetIndex<V>(l: seq<(string, V)>, k: string) returns (i: nat)
    requires Get(l, k).Some?
    ensures i < |l| && l[i] == (k, Get(l, k).value)
  {
    if l[0].0 == k {
      i := 0;
    } else {
      var j := GetIndex(l[1..], k);
      i := j + 1;
    }
  }

  /** `insert`: the key now maps to `v`, every other key is untouched, and
      the list stays in key order. */
  function Insert<V>(l: seq<(string, V)>, k: string, v: V): (r: seq<(string, V)>)
    requires Sorted(l)
    ensures Sorted(r)
    ensures forall x :: Get(r, x) == if x == k then Some(v) else Get(l, x)
    ensures forall a :: Above(a, l) && Less(a, k) ==> Above(a, r)
  {
    if |l| == 0 then [(k, v)]
    else if l[0].0 == k then
      var r := [(k, v)] + l[1..];
      assert r[1..] == l[1..];
      r
    else if Less(k, l[0].0) then
      var r := [(k, v)] + l;
      assert r[1..] == l;
      assert Above(k, l) by {
        forall j | 0 < j < |l| ensures Less(k, l[j].0) {
          LessTransitive(k, l[0].0, l[j].0);
        }
      }
      r
    else
      LessTotal(k, l[0].0);
      var r := [l[0]] + Insert(l[1..], k, v);
      assert r[1..] == Insert(l[1..], k, v);
      r
  }

  /** `remove`: the key is gone, every other key is untouched, and the list
      stays in key order. */
  function Remove<V>(l: seq<(string, V)>, k: string): (r: seq<(string, V)>)
    requires Sorted(l)
    ensures Sorted(r)
    ensures forall x :: Get(r, x) == if x == k then None else Get(l, x)
    ensures forall a :: Above(a, l) ==> Above(a, r)
  {
    if |l| == 0 then []
    else if l[0].0 == k then
      AboveAbsent(k, l[1..]);
      l[1..]
    else
      var r := [l[0]] + Remove(l[1..], k);
      assert r[1..] == Remove(l[1..], k);
      assert Above(l[0].0, l[1..]);
      assert forall a :: Above(a, l) ==> Above(a, l[1..]);
      r
  }

}

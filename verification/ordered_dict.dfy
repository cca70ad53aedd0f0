/** The `original_values` dictionary: a Python dict from service name to
    the recorded `minReplicas`. Python dicts iterate in insertion order and
    assigning to a key that is already present keeps its position, so the
    dict is a sequence of entries, updated in place on an existing key. */
module OrderedDict {
  import opened Wrappers

  type Entries = seq<(string, int)>

  /** The dict literal `{}` the pilot starts from. */
  const Empty: Entries := []

  /** The order in which `.items()` yields the keys. */
  function KeyOrder(d: Entries): (ks: seq<string>)
    ensures |ks| == |d|
    ensures forall i :: 0 <= i < |d| ==> ks[i] == d[i].0
  {
    seq(|d|, i requires 0 <= i < |d| => d[i].0)
  }

  function KeySet(d: Entries): set<string> {
    set e | e in d :: e.0
  }

  /** The keys of a non-empty dict are its first key and the keys after it. */
  lemma KeySetCons(d: Entries)
    requires |d| > 0
    ensures KeySet(d) == {d[0].0} + KeySet(d[1..])
  {
    assert d == [d[0]] + d[1..];
  }

  /** The dict invariant: no key occurs twice. */
  ghost predicate NoDupKeys(d: Entries) {
    forall i, j :: 0 <= i < j < |d| ==> d[i].0 != d[j].0
  }

  /** `d.get(k)`. */
  function Lookup(d: Entries, k: string): (r: Option<int>)
    ensures r.Some? <==> k in KeySet(d)
    ensures r.Some? ==> (k, r.value) in d
  {
    if |d| == 0 then None
    else if d[0].0 == k then Some(d[0].1)
    else
      KeySetCons(d);
      Lookup(d[1..], k)
  }

  /** `d[k] = v`: an existing key is overwritten where it stands, a new
      key is appended. */
  function Put(d: Entries, k: string, v: int): (r: Entries)
    ensures k !in KeySet(d) ==> r == d + [(k, v)]
    ensures k in KeySet(d) ==> KeyOrder(r) == KeyOrder(d)
  {
    if |d| == 0 then [(k, v)]
    else
      KeySetCons(d);
      if d[0].0 == k then [(k, v)] + d[1..]
      else
        var rest := Put(d[1..], k, v);
        ConsKeys(d[0], d[1..], rest, k, v);
        [d[0]] + rest
  }

  /** The step of `Put` that keeps the first entry and recurses on the rest. */
  lemma ConsKeys(e: (string, int), tail: Entries, rest: Entries, k: string, v: int)
    requires rest == tail + [(k, v)] || KeyOrder(rest) == KeyOrder(tail)
    ensures rest == tail + [(k, v)] ==> [e] + rest == [e] + tail + [(k, v)]
    ensures KeyOrder(rest) == KeyOrder(tail) ==> KeyOrder([e] + rest) == KeyOrder([e] + tail)
  {
    if KeyOrder(rest) == KeyOrder(tail) {
      var a, b := KeyOrder([e] + rest), KeyOrder([e] + tail);
      assert |a| == |b|;
      forall i | 0 <= i < |a| ensures a[i] == b[i] {
        if i > 0 {
          assert a[i] == rest[i - 1].0 == KeyOrder(rest)[i - 1];
          assert b[i] == tail[i - 1].0 == KeyOrder(tail)[i - 1];
        }
      }
    }
  }

  /** After `d[k] = v` the key holds `v` and every other key holds what it held. */
  lemma {:induction false} PutLookup(d: Entries, k: string, v: int)
    ensures Lookup(Put(d, k, v), k) == Some(v)
    ensures forall k' :: k' != k ==> Lookup(Put(d, k, v), k') == Lookup(d, k')
  {
    if |d| > 0 && d[0].0 != k {
      PutLookup(d[1..], k, v);
      assert Put(d, k, v)[1..] == Put(d[1..], k, v);
    }
  }

  /** A key is in the dict exactly when `.items()` yields it. */
  lemma KeySetKeyOrder(d: Entries)
    ensures forall x :: x in KeySet(d) <==> x in KeyOrder(d)
  {
    var ks := KeyOrder(d);
    forall x | x in KeySet(d) ensures x in ks {
      var e :| e in d && e.0 == x;
      var i :| 0 <= i < |d| && d[i] == e;
      assert ks[i] == x;
    }
    forall x | x in ks ensures x in KeySet(d) {
      var i :| 0 <= i < |ks| && ks[i] == x;
      assert d[i] in d;
    }
  }

  /** The keys after `d[k] = v` are the keys before plus `k`, and none is duplicated. */
  lemma PutKeys(d: Entries, k: string, v: int)
    ensures KeySet(Put(d, k, v)) == KeySet(d) + {k}
    ensures NoDupKeys(d) ==> NoDupKeys(Put(d, k, v))
  {
    var r := Put(d, k, v);
    if k in KeySet(d) {
      KeySetKeyOrder(d);
      KeySetKeyOrder(r);
      assert forall i :: 0 <= i < |r| ==> r[i].0 == KeyOrder(r)[i] == KeyOrder(d)[i] == d[i].0;
    } else {
      assert r == d + [(k, v)];
      assert forall i :: 0 <= i < |d| ==> d[i].0 in KeySet(d);
    }
  }
}

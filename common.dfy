/** Shared wrappers and the ordered key/value sequences that stand for PHP
    arrays with string keys and for JavaScript `Map`s: both keep insertion
    order, and assigning to a key already present keeps its position. */
module Common {

  datatype Option<+T> = None | Some(value: T)

  /** The outcome of an operation that may throw. */
  datatype Result<+T, +E> = Ok(value: T) | Err(error: E)

  function Keys<V>(m: seq<(string, V)>): (ks: seq<string>)
    ensures |ks| == |m|
    ensures forall i :: 0 <= i < |m| ==> ks[i] == m[i].0
  {
    seq(|m|, i requires 0 <= i < |m| => m[i].0)
  }

  function Values<V>(m: seq<(string, V)>): (vs: seq<V>)
    ensures |vs| == |m|
    ensures forall i :: 0 <= i < |m| ==> vs[i] == m[i].1
  {
    seq(|m|, i requires 0 <= i < |m| => m[i].1)
  }

  predicate HasKey<V>(m: seq<(string, V)>, k: string)
  {
    exists i :: 0 <= i < |m| && m[i].0 == k
  }

  /** No key occurs twice: what a PHP array or a JS Map guarantees. */
  predicate DistinctKeys<V>(m: seq<(string, V)>)
  {
    forall i, j :: 0 <= i < j < |m| ==> m[i].0 != m[j].0
  }

  lemma HasKeyCons<V>(m: seq<(string, V)>)
    requires |m| > 0
    ensures forall x :: HasKey(m, x) <==> x == m[0].0 || HasKey(m[1..], x)
  {
    forall x | HasKey(m, x) && x != m[0].0 ensures HasKey(m[1..], x) {
      var i :| 0 <= i < |m| && m[i].0 == x;
      assert m[1..][i - 1].0 == x;
    }
    forall x | HasKey(m[1..], x) ensures HasKey(m, x) {
      var i :| 0 <= i < |m[1..]| && m[1..][i].0 == x;
      assert m[i + 1].0 == x;
    }
  }

  /** `$m[$k] = $v`: overwrite in place when the key is present, append otherwise. */
  function Put<V>(m: seq<(string, V)>, k: string, v: V): (r: seq<(string, V)>)
    ensures HasKey(m, k) ==> |r| == |m|
    ensures !HasKey(m, k) ==> r == m + [(k, v)]
    ensures HasKey(r, k)
    ensures forall x :: HasKey(r, x) <==> x == k || HasKey(m, x)
  {
    if |m| == 0 then
      assert [(k, v)][0].0 == k;
      [(k, v)]
    else if m[0].0 == k then
      HasKeyCons(m);
      var r := [(k, v)] + m[1..];
      HasKeyCons(r);
      assert r[1..] == m[1..];
      r
    else
      HasKeyCons(m);
      var rest := Put(m[1..], k, v);
      var r := [m[0]] + rest;
      HasKeyCons(r);
      assert r[1..] == rest;
      r
  }

  /** On a map without repeated keys `Put` overwrites the value in place,
      leaves every other entry where it was, and repeats no key. */
  lemma {:induction false} PutInPlace<V>(m: seq<(string, V)>, k: string, v: V)
    requires DistinctKeys(m)
    ensures forall i :: 0 <= i < |m| ==> Put(m, k, v)[i] == if m[i].0 == k then (k, v) else m[i]
    ensures DistinctKeys(Put(m, k, v))
    decreases |m|
  {
    if |m| > 0 {
      var r := Put(m, k, v);
      if m[0].0 == k {
        HasKeyCons(m);
        assert r == [(k, v)] + m[1..];
        forall i | 1 <= i < |m| ensures m[i].0 != k { assert m[0].0 != m[i].0; }
      } else {
        PutInPlace(m[1..], k, v);
        var rest := Put(m[1..], k, v);
        assert r == [m[0]] + rest;
        forall i | 0 <= i < |m| ensures r[i] == if m[i].0 == k then (k, v) else m[i] {
          if i > 0 { assert m[i] == m[1..][i - 1]; }
        }
        assert HasKey(rest, m[0].0) <==> m[0].0 == k || HasKey(m[1..], m[0].0);
        assert !HasKey(m[1..], m[0].0) by {
          forall i | 0 <= i < |m[1..]| ensures m[1..][i].0 != m[0].0 { assert m[1..][i] == m[i + 1]; }
        }
        forall i, j | 0 <= i < j < |r| ensures r[i].0 != r[j].0 {
          if i == 0 {
            assert r[j] == rest[j - 1];
          } else {
            assert r[i] == rest[i - 1] && r[j] == rest[j - 1];
          }
        }
      }
    }
  }

  /** `$m[$k] ?? null` */
  function Get<V>(m: seq<(string, V)>, k: string): (r: Option<V>)
    ensures r.Some? <==> HasKey(m, k)
    ensures DistinctKeys(m) ==> forall i :: 0 <= i < |m| && m[i].0 == k ==> r == Some(m[i].1)
  {
    if |m| == 0 then None
    else if m[0].0 == k then Some(m[0].1)
    else
      var r := Get(m[1..], k);
      assert HasKey(m[1..], k) ==> HasKey(m, k) by {
        if HasKey(m[1..], k) {
          var i :| 0 <= i < |m[1..]| && m[1..][i].0 == k;
          assert m[i + 1].0 == k;
        }
      }
      assert HasKey(m, k) ==> HasKey(m[1..], k) by {
        if HasKey(m, k) {
          var i :| 0 <= i < |m| && m[i].0 == k;
          assert m[1..][i - 1].0 == k;
        }
      }
      r
  }

  /** Reading back after `Put`: the new value under its key, every other key as before. */
  lemma GetPut<V>(m: seq<(string, V)>, k: string, v: V)
    requires DistinctKeys(m)
    ensures Get(Put(m, k, v), k) == Some(v)
    ensures forall x :: x != k ==> Get(Put(m, k, v), x) == Get(m, x)
  {
    PutInPlace(m, k, v);
    var r := Put(m, k, v);
    var i :| 0 <= i < |r| && r[i].0 == k;
    if i < |m| {
      assert r[i] == (k, v);
    } else {
      assert r == m + [(k, v)];
    }
    forall x | x != k && HasKey(m, x)
      ensures Get(r, x) == Get(m, x)
    {
      var j :| 0 <= j < |m| && m[j].0 == x;
      assert r[j] == m[j];
    }
  }

  /** `Put` keeps every entry after the first equal to a function of its key,
      and the first entry keeps its key. */
  lemma PutKeepsValues<V>(m: seq<(string, V)>, k: string, v: V, f: string -> V)
    requires DistinctKeys(m) && |m| >= 1 && v == f(k)
    requires forall j :: 0 < j < |m| ==> m[j].1 == f(m[j].0)
    ensures var r := Put(m, k, v);
      (forall j :: 0 < j < |r| ==> r[j].1 == f(r[j].0))
      && r[0] == (if m[0].0 == k then (k, v) else m[0])
  {
    PutInPlace(m, k, v);
    var r := Put(m, k, v);
    if !HasKey(m, k) {
      assert r == m + [(k, v)];
    }
  }

  /** `Put` keeps the first entry in place. */
  lemma PutFirst<V>(m: seq<(string, V)>, k: string, v: V)
    requires DistinctKeys(m) && |m| >= 1
    ensures Put(m, k, v)[0] == if m[0].0 == k then (k, v) else m[0]
  {
  }
}

/**
 * An insertion-ordered string-to-string map, the model of the two
 * `LinkedHashMap<String, String>` values the annotation processor fills in
 * (field name to type, field name to getter name).  Re-putting a key that is
 * already present replaces its value and keeps the key where it first went in.
 */
module OrderedMap {
  import opened Wrappers

  type Entry = (string, string)
  type OMap = seq<Entry>

  /** The keys in iteration order. */
  function Keys(m: OMap): (ks: seq<string>)
    ensures |ks| == |m|
    ensures forall i :: 0 <= i < |m| ==> ks[i] == m[i].0
  {
    if m == [] then [] else [m[0].0] + Keys(m[1..])
  }

  function KeySet(m: OMap): set<string>
  {
    set i | 0 <= i < |m| :: m[i].0
  }

  /** No key occurs twice (every map the processor builds has this shape). */
  predicate DistinctKeys(m: OMap)
  {
    forall i, j :: 0 <= i < j < |m| ==> m[i].0 != m[j].0
  }

  /** `map.get(k)`: the value stored with `k`, or nothing. */
  function Get(m: OMap, k: string): (r: Option<string>)
    ensures r.None? <==> k !in KeySet(m)
    ensures r.Some? ==> exists i :: 0 <= i < |m| && m[i] == (k, r.value)
  {
    if m == [] then None
    else if m[0].0 == k then Some(m[0].1)
    else
      var r := Get(m[1..], k);
      assert r.Some? ==> exists i :: 0 <= i < |m[1..]| && m[1..][i] == (k, r.value);
      assert KeySet(m) == {m[0].0} + KeySet(m[1..]) by {
        forall x ensures x in KeySet(m) <==> x in {m[0].0} + KeySet(m[1..]) {
          if x in KeySet(m) {
            var i :| 0 <= i < |m| && m[i].0 == x;
            if i > 0 { assert m[1..][i - 1].0 == x; }
          }
          if x in KeySet(m[1..]) {
            var i :| 0 <= i < |m[1..]| && m[1..][i].0 == x;
            assert m[i + 1].0 == x;
          }
        }
      }
      r
  }

  /** `map.put(k, v)` on a `LinkedHashMap`. */
  function Put(m: OMap, k: string, v: string): OMap
  {
    if m == [] then [(k, v)]
    else if m[0].0 == k then [(k, v)] + m[1..]
    else [m[0]] + Put(m[1..], k, v)
  }

  /** After `put(k, v)`, `get(k)` is `v`. */
  lemma {:induction false} PutGet(m: OMap, k: string, v: string)
    ensures Get(Put(m, k, v), k) == Some(v)
  {
    if m != [] && m[0].0 != k {
      PutGet(m[1..], k, v);
      assert Put(m, k, v)[1..] == Put(m[1..], k, v);
    }
  }

  /** `put(k, v)` leaves every other key's value as it was. */
  lemma {:induction false} PutGetOther(m: OMap, k: string, v: string, k': string)
    requires k' != k
    ensures Get(Put(m, k, v), k') == Get(m, k')
  {
    if m != [] {
      if m[0].0 == k {
        assert Put(m, k, v)[1..] == m[1..];
      } else if m[0].0 != k' {
        PutGetOther(m[1..], k, v, k');
        assert Put(m, k, v)[1..] == Put(m[1..], k, v);
      }
    }
  }

  /** A present key keeps its position; a new key is appended. */
  lemma {:induction false} PutKeys(m: OMap, k: string, v: string)
    ensures Keys(Put(m, k, v)) == if k in Keys(m) then Keys(m) else Keys(m) + [k]
  {
    if m != [] {
      if m[0].0 != k {
        PutKeys(m[1..], k, v);
        var p := Put(m, k, v);
        assert p[0] == m[0] && p[1..] == Put(m[1..], k, v);
        assert Keys(p) == [m[0].0] + Keys(Put(m[1..], k, v));
        assert Keys(m) == [m[0].0] + Keys(m[1..]);
        assert k in Keys(m) <==> k in Keys(m[1..]);
      }
    }
  }

  /** Putting a new key appends it at the end of the iteration order. */
  lemma {:induction false} PutAbsent(m: OMap, k: string, v: string)
    requires k !in KeySet(m)
    ensures Put(m, k, v) == m + [(k, v)]
  {
    if m != [] {
      assert m[0].0 != k;
      assert k !in KeySet(m[1..]) by {
        forall i | 0 <= i < |m[1..]| ensures m[1..][i].0 != k {
          assert m[1..][i] == m[i + 1];
        }
      }
      PutAbsent(m[1..], k, v);
      assert m == [m[0]] + m[1..];
    }
  }

  /** Putting the value a key already has changes nothing. */
  lemma {:induction false} PutPresent(m: OMap, k: string, v: string)
    requires Get(m, k) == Some(v)
    ensures Put(m, k, v) == m
  {
    if m != [] {
      if m[0].0 == k {
        assert m == [(k, v)] + m[1..];
      } else {
        PutPresent(m[1..], k, v);
        assert m == [m[0]] + m[1..];
      }
    }
  }

  /** `put` never introduces a duplicate key. */
  lemma PutDistinct(m: OMap, k: string, v: string)
    requires DistinctKeys(m)
    ensures DistinctKeys(Put(m, k, v))
  {
    PutKeys(m, k, v);
    var p := Put(m, k, v);
    assert Keys(p) == Keys(Put(m, k, v));
    forall i, j | 0 <= i < j < |p| ensures p[i].0 != p[j].0 {
      assert Keys(p)[i] == p[i].0 && Keys(p)[j] == p[j].0;
      if k !in Keys(m) && j == |m| {
        assert Keys(m)[i] == m[i].0;
      } else {
        assert Keys(m)[i] == m[i].0 && Keys(m)[j] == m[j].0;
      }
    }
  }

  lemma KeySetOfKeys(m: OMap)
    ensures forall k :: k in KeySet(m) <==> k in Keys(m)
  {
    forall k ensures k in KeySet(m) <==> k in Keys(m) {
      if k in Keys(m) {
        var i :| 0 <= i < |Keys(m)| && Keys(m)[i] == k;
        assert m[i].0 == k;
      }
    }
  }
}

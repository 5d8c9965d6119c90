/** Python's built-in dict as the hybrid containers use it: a finite map that
    remembers the order in which its keys were first inserted. */
module PyDict {

  ghost predicate Distinct<K>(s: seq<K>)
  {
    forall i, j :: 0 <= i < j < |s| ==> s[i] != s[j]
  }

  /** A sequence without repetitions has as many elements as its set. */
  lemma {:induction false} DistinctSize<K>(s: seq<K>)
    requires Distinct(s)
    ensures |set k | k in s| == |s|
  {
    if s != [] {
      assert Distinct(s[1..]) by {
        forall i, j | 0 <= i < j < |s[1..]| ensures s[1..][i] != s[1..][j] {
          assert s[1..][i] == s[i + 1] && s[1..][j] == s[j + 1];
        }
      }
      DistinctSize(s[1..]);
      assert s[0] !in s[1..] by {
        forall i | 0 <= i < |s[1..]| ensures s[1..][i] != s[0] {
          assert s[1..][i] == s[i + 1];
        }
      }
      assert (set k | k in s) == (set k | k in s[1..]) + {s[0]};
    }
  }

  /** A repetition-free sequence drawn from a set of the same size lists the
      whole set. */
  lemma DistinctCovers<K>(s: seq<K>, all: set<K>)
    requires Distinct(s)
    requires forall i :: 0 <= i < |s| ==> s[i] in all
    requires |s| == |all|
    ensures (set k | k in s) == all
  {
    DistinctSize(s);
    var listed := set k | k in s;
    assert listed <= all;
    assert |all - listed| == 0 by {
      assert |all| == |listed| + |all - listed|;
    }
    assert all - listed == {};
  }

  /** `s` with `k` taken out. */
  function Without<K(==)>(s: seq<K>, k: K): (r: seq<K>)
    ensures forall i :: 0 <= i < |r| ==> r[i] != k && r[i] in s
    ensures forall i :: 0 <= i < |s| && s[i] != k ==> s[i] in r
    ensures k !in s ==> r == s
  {
    if s == [] then []
    else
      var rest := Without(s[1..], k);
      assert forall i :: 1 <= i < |s| ==> s[i] == s[1..][i - 1];
      if s[0] == k then rest
      else
        var r := [s[0]] + rest;
        assert forall i :: 1 <= i < |r| ==> r[i] == rest[i - 1];
        r
  }

  /** The tail of a repetition-free sequence is repetition-free and lacks its head. */
  lemma DistinctTail<K>(s: seq<K>)
    requires Distinct(s) && s != []
    ensures Distinct(s[1..]) && s[0] !in s[1..]
  {
    forall j | 0 <= j < |s[1..]| ensures s[1..][j] != s[0] {
      assert s[1..][j] == s[j + 1];
    }
    forall i, j | 0 <= i < j < |s[1..]| ensures s[1..][i] != s[1..][j] {
      assert s[1..][i] == s[i + 1] && s[1..][j] == s[j + 1];
    }
  }

  /** Putting a new element in front of a repetition-free sequence keeps it so. */
  lemma DistinctCons<K>(x: K, s: seq<K>)
    requires Distinct(s) && x !in s
    ensures Distinct([x] + s)
  {
    var r := [x] + s;
    forall i, j | 0 <= i < j < |r| ensures r[i] != r[j] {
      assert r[j] == s[j - 1];
      if i > 0 {
        assert r[i] == s[i - 1];
      }
    }
  }

  /** Taking a key out of a repetition-free order keeps it repetition-free,
      and removes exactly one element when the key was there. */
  lemma {:induction false} WithoutDistinct<K>(s: seq<K>, k: K)
    requires Distinct(s)
    ensures Distinct(Without(s, k))
    ensures k in s ==> |Without(s, k)| == |s| - 1
  {
    if s != [] {
      DistinctTail(s);
      WithoutDistinct(s[1..], k);
      if s[0] != k {
        var rest := Without(s[1..], k);
        assert s[0] !in rest;
        DistinctCons(s[0], rest);
        assert k in s ==> k in s[1..];
      }
    }
  }

  /** One step of `Without`: the head goes unless it is the key. */
  lemma WithoutCons<K>(s: seq<K>, k: K)
    requires s != []
    ensures Without(s, k) == if s[0] == k then Without(s[1..], k) else [s[0]] + Without(s[1..], k)
  {
  }

  /** Splicing out place `p` of `s` is keeping the head and splicing out
      place `p - 1` of the tail. */
  lemma SpliceTail<K>(s: seq<K>, p: nat)
    requires 0 < p < |s|
    ensures [s[0]] + (s[1..][..p - 1] + s[1..][p..]) == s[..p] + s[p + 1..]
  {
    assert s[1..][..p - 1] == s[1..p];
    assert s[1..][p..] == s[p + 1..];
    assert [s[0]] + s[1..p] == s[..p];
  }

  /** In a repetition-free sequence, taking out the element at `p` closes
      the gap: the elements before and after it keep their order. */
  lemma {:induction false} WithoutAt<K>(s: seq<K>, p: nat)
    requires Distinct(s) && p < |s|
    ensures Without(s, s[p]) == s[..p] + s[p + 1..]
  {
    var k := s[p];
    DistinctTail(s);
    WithoutCons(s, k);
    if p == 0 {
      assert s[..0] + s[1..] == s[1..];
    } else {
      assert s[0] != k;
      assert s[1..][p - 1] == k;
      WithoutAt(s[1..], p - 1);
      SpliceTail(s, p);
    }
  }

  /** A dict: its keys in insertion order, and what each key maps to. */
  datatype Dict<K, V> = Dict(order: seq<K>, entries: map<K, V>)

  /** The order lists every key of the dict exactly once. */
  ghost predicate Valid<K, V>(d: Dict<K, V>)
  {
    && Distinct(d.order)
    && (forall i :: 0 <= i < |d.order| ==> d.order[i] in d.entries)
    && |d.order| == |d.entries|
  }

  /** Every key of the dict has its place in the order. */
  lemma OrderCovers<K, V>(d: Dict<K, V>)
    requires Valid(d)
    ensures forall k :: k in d.entries ==> k in d.order
  {
    DistinctCovers(d.order, d.entries.Keys);
  }

  /** `{}` */
  function Empty<K(==), V>(): (d: Dict<K, V>)
    ensures Valid(d) && d.entries == map[]
  {
    Dict([], map[])
  }

  /** `d[k] = v`: a key already present keeps its place in the order and takes
      the new value; a new key is placed last. */
  function Put<K(==), V>(d: Dict<K, V>, k: K, v: V): (r: Dict<K, V>)
    ensures Valid(d) ==> Valid(r)
    ensures r.entries == d.entries[k := v]
    ensures |r.entries| == |d.entries| + (if k in d.entries then 0 else 1)
    ensures r.order == if k in d.entries then d.order else d.order + [k]
  {
    if k in d.entries then Dict(d.order, d.entries[k := v])
    else
      var order := d.order + [k];
      assert forall i :: 0 <= i < |d.order| ==> order[i] == d.order[i];
      assert Valid(d) ==> Distinct(order) by {
        if Valid(d) {
          forall i, j | 0 <= i < j < |order| ensures order[i] != order[j] {
            if j == |d.order| {
              assert order[i] in d.entries;
            }
          }
        }
      }
      Dict(order, d.entries[k := v])
  }

  /** `del d[k]` once `k` is known to be present, and `d.pop(k, None)`: the
      key and its value go, every other entry stays in its place. */
  function Remove<K(==), V>(d: Dict<K, V>, k: K): (r: Dict<K, V>)
    ensures Valid(d) ==> Valid(r)
    ensures r.entries == d.entries - {k}
    ensures |r.entries| == |d.entries| - (if k in d.entries then 1 else 0)
  {
    assert Valid(d) ==> (k in d.entries <==> k in d.order) by {
      if Valid(d) {
        OrderCovers(d);
      }
    }
    assert (d.entries - {k}).Keys == d.entries.Keys - {k};
    assert Valid(d) ==> Distinct(Without(d.order, k)) && (k in d.order ==> |Without(d.order, k)| == |d.order| - 1) by {
      if Valid(d) {
        WithoutDistinct(d.order, k);
      }
    }
    Dict(Without(d.order, k), d.entries - {k})
  }

  /** `del d[k]` leaves the other keys in their insertion order: the order
      loses exactly the place where `k` stood, and is untouched when `k` is
      absent. */
  lemma RemoveKeepsOrder<K, V>(d: Dict<K, V>, k: K)
    requires Valid(d)
    ensures k in d.entries ==>
              exists p :: 0 <= p < |d.order| && d.order[p] == k && Remove(d, k).order == d.order[..p] + d.order[p + 1..]
    ensures k !in d.entries ==> Remove(d, k).order == d.order
  {
    if k in d.entries {
      OrderCovers(d);
      var p :| 0 <= p < |d.order| && d.order[p] == k;
      WithoutAt(d.order, p);
    } else {
      assert k !in d.order;
    }
  }

  /** Taking the same key out twice leaves the dict as taking it out once. */
  lemma RemoveIdempotent<K, V>(d: Dict<K, V>, k: K)
    ensures Remove(Remove(d, k), k) == Remove(d, k)
  {
    assert (d.entries - {k}) - {k} == d.entries - {k};
  }

  /** `d.values()`, in the dict's order. */
  function Values<K(==), V>(d: Dict<K, V>): (vs: seq<V>)
    requires Valid(d)
    ensures |vs| == |d.order| == |d.entries|
    ensures forall i :: 0 <= i < |vs| ==> d.order[i] in d.entries && vs[i] == d.entries[d.order[i]]
  {
    seq(|d.order|, i requires 0 <= i < |d.order| => d.entries[d.order[i]])
  }
}

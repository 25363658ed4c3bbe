/** `std::map<std::string, std::string>` as an association list kept in
    ascending key order, which is the order a range-for over the map visits
    its entries in. */
module SortedMap {
  import opened Wrappers

  type Entries = seq<(string, string)>

  /** `std::string::operator<`: lexicographic comparison by character code. */
  predicate Less(a: string, b: string) {
    if |a| == 0 then |b| > 0
    else if |b| == 0 then false
    else if a[0] != b[0] then a[0] < b[0]
    else Less(a[1..], b[1..])
  }

  lemma {:induction false} LessIrreflexive(a: string)
    ensures !Less(a, a)
  {
    if |a| > 0 {
      LessIrreflexive(a[1..]);
    }
  }

  lemma {:induction false} LessTransitive(a: string, b: string, c: string)
    requires Less(a, b) && Less(b, c)
    ensures Less(a, c)
  {
    if |a| > 0 && |b| > 0 && |c| > 0 && a[0] == b[0] && b[0] == c[0] {
      LessTransitive(a[1..], b[1..], c[1..]);
    }
  }

  /** Any two different strings are ordered one way or the other. */
  lemma {:induction false} LessTotal(a: string, b: string)
    requires a != b
    ensures Less(a, b) || Less(b, a)
  {
    if |a| > 0 && |b| > 0 && a[0] == b[0] {
      assert a == [a[0]] + a[1..] && b == [b[0]] + b[1..];
      LessTotal(a[1..], b[1..]);
    }
  }

  lemma {:induction false} LessAsymmetric(a: string, b: string)
    requires Less(a, b)
    ensures !Less(b, a)
  {
    if Less(b, a) {
      LessTransitive(a, b, a);
      LessIrreflexive(a);
    }
  }

  /** Keys strictly ascending, hence also distinct. */
  ghost predicate Sorted(m: Entries) {
    forall i, j :: 0 <= i < j < |m| ==> Less(m[i].0, m[j].0)
  }

  function Keys(m: Entries): (ks: seq<string>)
    ensures |ks| == |m| && forall i :: 0 <= i < |m| ==> ks[i] == m[i].0
  {
    if |m| == 0 then [] else [m[0].0] + Keys(m[1..])
  }

  predicate HasKey(m: Entries, k: string) {
    exists i :: 0 <= i < |m| && m[i].0 == k
  }

  /** `map::find(k)`: the value of the first entry with key `k`. */
  function Get(m: Entries, k: string): (r: Option<string>)
    ensures r.None? <==> !HasKey(m, k)
    ensures r.Some? ==> exists i :: 0 <= i < |m| && m[i] == (k, r.value)
  {
    if |m| == 0 then None
    else if m[0].0 == k then Some(m[0].1)
    else
      var r := Get(m[1..], k);
      assert forall i :: 0 < i < |m| ==> m[i] == m[1..][i - 1];
      assert HasKey(m[1..], k) ==> HasKey(m, k);
      r
  }

  /** `map::emplace(k, v)`: adds the entry only when `k` is absent. */
  function Emplace(m: Entries, k: string, v: string): Entries {
    if HasKey(m, k) then m else Put(m, k, v)
  }

  /** `map[k] = v`: adds the entry, or overwrites the value of an existing key. */
  function Put(m: Entries, k: string, v: string): Entries {
    if |m| == 0 then [(k, v)]
    else if m[0].0 == k then [(k, v)] + m[1..]
    else if Less(k, m[0].0) then [(k, v)] + m
    else [m[0]] + Put(m[1..], k, v)
  }

  /** A key of a list with a head entry is the head's key or a key of the tail. */
  lemma HasKeyCons(h: (string, string), t: Entries, x: string)
    ensures HasKey([h] + t, x) <==> h.0 == x || HasKey(t, x)
  {
    var m := [h] + t;
    if HasKey(m, x) && h.0 != x {
      var i :| 0 <= i < |m| && m[i].0 == x;
      assert i > 0 && m[i] == t[i - 1];
    }
    if HasKey(t, x) {
      var i :| 0 <= i < |t| && t[i].0 == x;
      assert m[i + 1] == t[i];
    }
    if h.0 == x {
      assert m[0] == h;
    }
  }

  /** Every key of an ordered insertion's result was already there or is `k`. */
  lemma {:induction false} PutKeys(m: Entries, k: string, v: string, x: string)
    ensures HasKey(Put(m, k, v), x) <==> HasKey(m, x) || x == k
  {
    if |m| == 0 {
      assert Put(m, k, v)[0].0 == k;
    } else {
      assert m == [m[0]] + m[1..];
      HasKeyCons(m[0], m[1..], x);
      if m[0].0 == k {
        HasKeyCons((k, v), m[1..], x);
      } else if Less(k, m[0].0) {
        HasKeyCons((k, v), m, x);
      } else {
        PutKeys(m[1..], k, v, x);
        HasKeyCons(m[0], Put(m[1..], k, v), x);
      }
    }
  }

  /** The keys of a sorted list that come after its head are all above it. */
  lemma HeadBelowRest(m: Entries, x: string)
    requires Sorted(m) && |m| > 0 && HasKey(m[1..], x)
    ensures Less(m[0].0, x)
  {
    var i :| 0 <= i < |m[1..]| && m[1..][i].0 == x;
    assert m[i + 1].0 == x;
  }

  /** Inserting in order keeps the list sorted. */
  lemma {:induction false} PutSorted(m: Entries, k: string, v: string)
    requires Sorted(m)
    ensures Sorted(Put(m, k, v))
  {
    var r := Put(m, k, v);
    if |m| == 0 {
    } else if m[0].0 == k {
      assert forall j :: 0 < j < |r| ==> r[j] == m[j];
    } else if Less(k, m[0].0) {
      forall i, j | 0 <= i < j < |r|
        ensures Less(r[i].0, r[j].0)
      {
        if i == 0 {
          if j > 1 { LessTransitive(k, m[0].0, m[j - 1].0); }
        } else {
          assert r[i] == m[i - 1] && r[j] == m[j - 1];
        }
      }
    } else {
      LessTotal(k, m[0].0);
      assert Sorted(m[1..]);
      PutSorted(m[1..], k, v);
      var t := Put(m[1..], k, v);
      assert r == [m[0]] + t;
      forall i, j | 0 <= i < j < |r|
        ensures Less(r[i].0, r[j].0)
      {
        if i == 0 {
          assert HasKey(t, t[j - 1].0);
          PutKeys(m[1..], k, v, t[j - 1].0);
          if HasKey(m[1..], t[j - 1].0) {
            HeadBelowRest(m, t[j - 1].0);
          }
        } else {
          assert r[i] == t[i - 1] && r[j] == t[j - 1];
        }
      }
    }
  }

  /** After `map[k] = v`, looking up `k` yields `v`. */
  lemma {:induction false} GetPutSame(m: Entries, k: string, v: string)
    ensures Get(Put(m, k, v), k) == Some(v)
  {
    if |m| > 0 && m[0].0 != k && !Less(k, m[0].0) {
      GetPutSame(m[1..], k, v);
    }
  }

  /** After `map[k] = v`, every other key looks up as before. */
  lemma {:induction false} GetPutOther(m: Entries, k: string, v: string, x: string)
    requires x != k
    ensures Get(Put(m, k, v), x) == Get(m, x)
  {
    if |m| > 0 && m[0].0 != k && !Less(k, m[0].0) {
      GetPutOther(m[1..], k, v, x);
    } else if |m| > 0 && m[0].0 == k {
      assert (Put(m, k, v))[1..] == m[1..];
    } else if |m| > 0 {
      assert (Put(m, k, v))[1..] == m;
    }
  }

  /** `emplace` keeps a present key's value and otherwise behaves like `map[k] = v`. */
  lemma EmplaceGet(m: Entries, k: string, v: string, x: string)
    requires Sorted(m)
    ensures Sorted(Emplace(m, k, v))
    ensures Get(Emplace(m, k, v), x) == if x == k && !HasKey(m, k) then Some(v) else Get(m, x)
  {
    if !HasKey(m, k) {
      PutSorted(m, k, v);
      if x == k { GetPutSame(m, k, v); } else { GetPutOther(m, k, v, x); }
    }
  }
}

/**
 * The two Python collections the recommender builds its ranking with: a
 * `dict` from names to values, which remembers the order in which keys were
 * first inserted, and `sorted(d.items(), key=lambda x: x[1], reverse=True)`,
 * a stable sort by value, largest first.
 */
module Dict {
  import Text

  datatype Option<T> = None | Some(value: T)

  /** One `(key, value)` item of a dict. */
  datatype Entry<V> = Entry(key: string, value: V)

  /** The keys in dict order. */
  function Keys<V>(d: seq<Entry<V>>): (ks: seq<string>)
    ensures |ks| == |d|
  {
    if d == [] then [] else [d[0].key] + Keys(d[1..])
  }

  lemma {:induction false} KeysAt<V>(d: seq<Entry<V>>, i: nat)
    requires i < |d|
    ensures Keys(d)[i] == d[i].key
  {
    if i > 0 {
      KeysAt(d[1..], i - 1);
    }
  }

  lemma {:induction false} KeysPrefix<V>(d: seq<Entry<V>>, i: nat)
    requires i <= |d|
    ensures Keys(d[..i]) == Keys(d)[..i]
  {
    if i > 0 {
      KeysPrefix(d[1..], i - 1);
      assert d[..i][1..] == d[1..][..i - 1];
    }
  }

  /** A dict holds each key once. */
  predicate DistinctKeys<V>(d: seq<Entry<V>>)
  {
    Text.Distinct(Keys(d))
  }

  /** `d.get(k)`: the value stored under k, if any. */
  function Find<V>(d: seq<Entry<V>>, k: string): (r: Option<V>)
    ensures r.None? <==> k !in Keys(d)
    ensures r.Some? ==> Entry(k, r.value) in d
  {
    if d == [] then None
    else if d[0].key == k then Some(d[0].value)
    else Find(d[1..], k)
  }

  /** In a dict that holds each key once, looking up the key of an entry
      gives that entry's value. */
  lemma {:induction false} FindAt<V>(d: seq<Entry<V>>, i: nat)
    requires DistinctKeys(d) && i < |d|
    ensures Find(d, d[i].key) == Some(d[i].value)
  {
    if i > 0 {
      KeysAt(d, 0);
      KeysAt(d, i);
      assert Keys(d[1..]) == Keys(d)[1..];
      FindAt(d[1..], i - 1);
    }
  }

  /** `d[k] = v`: an existing key keeps its place and takes the new value; a
      new key goes to the end. */
  function Put<V>(d: seq<Entry<V>>, k: string, v: V): (r: seq<Entry<V>>)
  {
    if d == [] then [Entry(k, v)]
    else if d[0].key == k then [Entry(k, v)] + d[1..]
    else [d[0]] + Put(d[1..], k, v)
  }

  lemma {:induction false} PutKeys<V>(d: seq<Entry<V>>, k: string, v: V)
    ensures Keys(Put(d, k, v)) == if k in Keys(d) then Keys(d) else Keys(d) + [k]
  {
    if d != [] && d[0].key != k {
      PutKeys(d[1..], k, v);
      assert Keys(d) == [d[0].key] + Keys(d[1..]);
    }
  }

  /** After `d[k] = v`, k maps to v and every other key keeps its value. */
  lemma {:induction false} PutFind<V>(d: seq<Entry<V>>, k: string, v: V)
    ensures Find(Put(d, k, v), k) == Some(v)
    ensures forall k' :: k' != k ==> Find(Put(d, k, v), k') == Find(d, k')
  {
    if d != [] && d[0].key != k {
      PutFind(d[1..], k, v);
      assert ([d[0]] + Put(d[1..], k, v))[1..] == Put(d[1..], k, v);
    } else if d != [] {
      assert ([Entry(k, v)] + d[1..])[1..] == d[1..];
    }
  }

  /** Putting into a dict keeps each key once; a new key is appended. */
  lemma PutDistinct<V>(d: seq<Entry<V>>, k: string, v: V)
    requires DistinctKeys(d)
    ensures DistinctKeys(Put(d, k, v))
    ensures k !in Keys(d) ==> Put(d, k, v) == d + [Entry(k, v)]
  {
    PutKeys(d, k, v);
    if k !in Keys(d) {
      PutNew(d, k, v);
    }
  }

  lemma {:induction false} PutNew<V>(d: seq<Entry<V>>, k: string, v: V)
    requires k !in Keys(d)
    ensures Put(d, k, v) == d + [Entry(k, v)]
  {
    if d != [] {
      assert Keys(d) == [d[0].key] + Keys(d[1..]);
      PutNew(d[1..], k, v);
      assert d == [d[0]] + d[1..];
    }
  }

  /** Every entry after `d[k] = v` was already in d or is the new one. */
  lemma {:induction false} PutEntries<V>(d: seq<Entry<V>>, k: string, v: V)
    ensures forall e :: e in Put(d, k, v) ==> e in d || e == Entry(k, v)
  {
    if d != [] && d[0].key != k {
      PutEntries(d[1..], k, v);
    }
  }

  /** Entries sorted by value, largest first. */
  predicate Descending(s: seq<Entry<real>>)
  {
    forall i, j :: 0 <= i < j < |s| ==> s[i].value >= s[j].value
  }

  /** The entries whose value is t, in their order in s. */
  function WithValue(s: seq<Entry<real>>, t: real): seq<Entry<real>>
  {
    if s == [] then []
    else (if s[0].value == t then [s[0]] else []) + WithValue(s[1..], t)
  }

  /** Places x in front of the first entry whose value is not larger. */
  function InsertByValue(x: Entry<real>, s: seq<Entry<real>>): seq<Entry<real>>
  {
    if s == [] || x.value >= s[0].value then [x] + s
    else [s[0]] + InsertByValue(x, s[1..])
  }

  lemma {:induction false} InsertByValuePermutes(x: Entry<real>, s: seq<Entry<real>>)
    ensures multiset(InsertByValue(x, s)) == multiset{x} + multiset(s)
  {
    if s != [] && x.value < s[0].value {
      InsertByValuePermutes(x, s[1..]);
      var r := InsertByValue(x, s[1..]);
      calc {
        multiset(InsertByValue(x, s));
        multiset([s[0]] + r);
        multiset{s[0]} + multiset(r);
        multiset{s[0]} + multiset{x} + multiset(s[1..]);
        { assert s == [s[0]] + s[1..]; }
        multiset{x} + multiset(s);
      }
    }
  }

  lemma {:induction false} InsertByValueKeys(x: Entry<real>, s: seq<Entry<real>>)
    ensures multiset(Keys(InsertByValue(x, s))) == multiset{x.key} + multiset(Keys(s))
  {
    if s != [] && x.value < s[0].value {
      InsertByValueKeys(x, s[1..]);
      var r := InsertByValue(x, s[1..]);
      calc {
        multiset(Keys(InsertByValue(x, s)));
        multiset(Keys([s[0]] + r));
        { assert ([s[0]] + r)[1..] == r; }
        multiset([s[0].key] + Keys(r));
        multiset{s[0].key} + multiset(Keys(r));
        multiset{s[0].key} + multiset{x.key} + multiset(Keys(s[1..]));
        multiset{x.key} + multiset([s[0].key] + Keys(s[1..]));
      }
    } else {
      assert ([x] + s)[1..] == s;
    }
  }

  lemma {:induction false} InsertByValueMembers(x: Entry<real>, s: seq<Entry<real>>)
    ensures forall e :: e in InsertByValue(x, s) <==> e == x || e in s
  {
    if s != [] && x.value < s[0].value {
      InsertByValueMembers(x, s[1..]);
      assert s == [s[0]] + s[1..];
    }
  }

  lemma {:induction false} InsertByValueDescending(x: Entry<real>, s: seq<Entry<real>>)
    requires Descending(s)
    ensures Descending(InsertByValue(x, s))
  {
    if s != [] && x.value < s[0].value {
      InsertByValueDescending(x, s[1..]);
      InsertByValueMembers(x, s[1..]);
      var r := InsertByValue(x, s[1..]);
      forall j | 0 <= j < |r| ensures s[0].value >= r[j].value {
        assert r[j] in r;
        if r[j] != x {
          var k :| 0 <= k < |s[1..]| && s[1..][k] == r[j];
          assert s[k + 1] == r[j];
        }
      }
      var res := [s[0]] + r;
      forall i, j | 0 <= i < j < |res| ensures res[i].value >= res[j].value {
        assert res[j] == r[j - 1];
        if i > 0 {
          assert res[i] == r[i - 1];
        }
      }
    } else if s != [] {
      var res := [x] + s;
      forall i, j | 0 <= i < j < |res| ensures res[i].value >= res[j].value {
        assert res[j] == s[j - 1];
        if i > 0 {
          assert res[i] == s[i - 1];
        }
      }
    }
  }

  lemma {:induction false} InsertByValueStable(x: Entry<real>, s: seq<Entry<real>>, t: real)
    ensures WithValue(InsertByValue(x, s), t) == WithValue([x] + s, t)
  {
    assert ([x] + s)[1..] == s;
    if s != [] && x.value < s[0].value {
      InsertByValueStable(x, s[1..], t);
      var r := InsertByValue(x, s[1..]);
      assert ([s[0]] + r)[1..] == r;
      assert ([x] + s[1..])[1..] == s[1..];
    }
  }

  /** `sorted(items, key=value, reverse=True)`: insertion sort that keeps
      entries with equal values in their input order. */
  function SortDesc(xs: seq<Entry<real>>): (r: seq<Entry<real>>)
  {
    if xs == [] then [] else InsertByValue(xs[0], SortDesc(xs[1..]))
  }

  /** The sorted list is a permutation of the items, and so of the keys. */
  lemma SortDescPermutes(xs: seq<Entry<real>>)
    ensures multiset(SortDesc(xs)) == multiset(xs)
    ensures multiset(Keys(SortDesc(xs))) == multiset(Keys(xs))
  {
    SortDescEntries(xs);
    SortDescKeyCounts(xs);
  }

  lemma {:induction false} SortDescEntries(xs: seq<Entry<real>>)
    ensures multiset(SortDesc(xs)) == multiset(xs)
  {
    if xs != [] {
      SortDescEntries(xs[1..]);
      InsertByValuePermutes(xs[0], SortDesc(xs[1..]));
      assert xs == [xs[0]] + xs[1..];
    }
  }

  lemma {:induction false} SortDescKeyCounts(xs: seq<Entry<real>>)
    ensures multiset(Keys(SortDesc(xs))) == multiset(Keys(xs))
  {
    if xs != [] {
      SortDescKeyCounts(xs[1..]);
      InsertByValueKeys(xs[0], SortDesc(xs[1..]));
      assert Keys(xs) == [xs[0].key] + Keys(xs[1..]);
    }
  }

  lemma {:induction false} SortDescDescending(xs: seq<Entry<real>>)
    ensures Descending(SortDesc(xs))
  {
    if xs != [] {
      SortDescDescending(xs[1..]);
      InsertByValueDescending(xs[0], SortDesc(xs[1..]));
    }
  }

  /** Stability: the entries with any one value appear in the sorted list in
      the order they have in the input. */
  lemma {:induction false} SortDescStable(xs: seq<Entry<real>>, t: real)
    ensures WithValue(SortDesc(xs), t) == WithValue(xs, t)
  {
    if xs != [] {
      SortDescStable(xs[1..], t);
      InsertByValueStable(xs[0], SortDesc(xs[1..]), t);
      assert ([xs[0]] + SortDesc(xs[1..]))[1..] == SortDesc(xs[1..]);
      assert xs == [xs[0]] + xs[1..];
    }
  }

  /** Sorting a dict's items keeps each key once. */
  lemma SortDescDistinct(xs: seq<Entry<real>>)
    requires DistinctKeys(xs)
    ensures DistinctKeys(SortDesc(xs))
  {
    SortDescPermutes(xs);
    Text.DistinctByCount(Keys(xs));
    Text.DistinctByCount(Keys(SortDesc(xs)));
  }

  /** Sorting keeps exactly the keys of the dict, each once. */
  lemma SortDescKeys(xs: seq<Entry<real>>)
    requires DistinctKeys(xs)
    ensures DistinctKeys(SortDesc(xs))
    ensures forall k :: k in Keys(SortDesc(xs)) <==> k in Keys(xs)
  {
    SortDescDistinct(xs);
    SortDescPermutes(xs);
    forall k ensures k in Keys(SortDesc(xs)) <==> k in Keys(xs) {
      assert k in multiset(Keys(SortDesc(xs))) <==> k in multiset(Keys(xs));
    }
  }

  /** The key of every entry is among the keys. */
  lemma EntryKeys<V>(d: seq<Entry<V>>)
    ensures forall e :: e in d ==> e.key in Keys(d)
  {
  }
}

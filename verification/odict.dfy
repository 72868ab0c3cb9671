/** Python's insertion-ordered `dict` with string keys, as an association list.

    Assigning an existing key keeps its position; assigning a new key appends
    it; deleting removes the entry. Iteration order is list order. */
module ODict {
  import opened Wrappers

  type Dict<V> = seq<(string, V)>

  function Keys<V>(d: Dict<V>): (ks: seq<string>)
    ensures |ks| == |d|
    ensures forall i :: 0 <= i < |d| ==> ks[i] == d[i].0
  {
    if |d| == 0 then [] else [d[0].0] + Keys(d[1..])
  }

  predicate UniqueKeys<V>(d: Dict<V>) {
    forall i, j :: 0 <= i < j < |d| ==> d[i].0 != d[j].0
  }

  predicate HasKey<V>(d: Dict<V>, k: string) {
    k in Keys(d)
  }

  /** `d.get(k)`: the value of the first entry with key `k`. */
  function Get<V>(d: Dict<V>, k: string): (r: Option<V>)
    ensures r.Some? <==> HasKey(d, k)
    ensures r.Some? ==> (k, r.value) in d
    ensures UniqueKeys(d) ==> forall i :: 0 <= i < |d| && d[i].0 == k ==> r == Some(d[i].1)
  {
    if |d| == 0 then None
    else if d[0].0 == k then Some(d[0].1)
    else Get(d[1..], k)
  }

  /** `d[k] = v`. */
  function Put<V>(d: Dict<V>, k: string, v: V): (r: Dict<V>)
    ensures HasKey(d, k) ==> |r| == |d|
    ensures !HasKey(d, k) ==> r == d + [(k, v)]
  {
    if |d| == 0 then [(k, v)]
    else if d[0].0 == k then [(k, v)] + d[1..]
    else
      assert Keys(d) == [d[0].0] + Keys(d[1..]);
      [d[0]] + Put(d[1..], k, v)
  }

  lemma {:induction false} PutGet<V>(d: Dict<V>, k: string, v: V, k': string)
    ensures Get(Put(d, k, v), k') == if k' == k then Some(v) else Get(d, k')
  {
    if |d| > 0 && d[0].0 != k {
      var r := Put(d, k, v);
      assert r[1..] == Put(d[1..], k, v);
      PutGet(d[1..], k, v, k');
    }
  }

  lemma {:induction false} PutKeys<V>(d: Dict<V>, k: string, v: V)
    ensures HasKey(d, k) ==> Keys(Put(d, k, v)) == Keys(d)
    ensures !HasKey(d, k) ==> Keys(Put(d, k, v)) == Keys(d) + [k]
  {
    if |d| > 0 && d[0].0 != k {
      var r := Put(d, k, v);
      assert r[1..] == Put(d[1..], k, v);
      assert Keys(d) == [d[0].0] + Keys(d[1..]);
      assert Keys(r) == [r[0].0] + Keys(r[1..]);
      PutKeys(d[1..], k, v);
    } else if |d| > 0 {
      var r := Put(d, k, v);
      assert Keys(d) == [d[0].0] + Keys(d[1..]);
      assert Keys(r) == [r[0].0] + Keys(r[1..]);
    }
  }

  lemma UniqueKeysOfKeys<V>(a: Dict<V>, b: Dict<V>)
    requires Keys(a) == Keys(b) && UniqueKeys(a)
    ensures UniqueKeys(b)
  {
    forall i, j | 0 <= i < j < |b| ensures b[i].0 != b[j].0 {
      assert Keys(a)[i] == a[i].0 && Keys(a)[j] == a[j].0;
    }
  }

  lemma PutUnique<V>(d: Dict<V>, k: string, v: V)
    requires UniqueKeys(d)
    ensures UniqueKeys(Put(d, k, v))
  {
    var r := Put(d, k, v);
    PutKeys(d, k, v);
    if HasKey(d, k) {
      UniqueKeysOfKeys(d, r);
    } else {
      forall i | 0 <= i < |d| ensures d[i].0 != k {
        assert Keys(d)[i] == d[i].0;
      }
    }
  }

  /** `del d[k]`; removes nothing when `k` is absent (where Python raises
      KeyError, which every caller of this model checks for first). */
  function Remove<V>(d: Dict<V>, k: string): (r: Dict<V>)
    ensures !HasKey(d, k) ==> r == d
    ensures HasKey(d, k) ==> |r| == |d| - 1
    ensures forall e :: e in r ==> e in d
  {
    if |d| == 0 then []
    else if d[0].0 == k then d[1..]
    else
      assert Keys(d) == [d[0].0] + Keys(d[1..]);
      [d[0]] + Remove(d[1..], k)
  }

  lemma {:induction false} RemoveGet<V>(d: Dict<V>, k: string, k': string)
    requires UniqueKeys(d)
    ensures Get(Remove(d, k), k') == if k' == k then None else Get(d, k')
  {
    if |d| > 0 {
      if d[0].0 != k {
        var r := Remove(d, k);
        assert r[1..] == Remove(d[1..], k);
        RemoveGet(d[1..], k, k');
      }
    }
  }

  lemma {:induction false} RemoveUnique<V>(d: Dict<V>, k: string)
    requires UniqueKeys(d)
    ensures UniqueKeys(Remove(d, k))
  {
    if |d| > 0 && d[0].0 != k {
      var r := Remove(d, k);
      RemoveUnique(d[1..], k);
      forall j | 1 <= j < |r| ensures r[0].0 != r[j].0 {
        assert r[j] in Remove(d[1..], k);
        assert r[j] in d[1..];
      }
    }
  }

  /** The mapping a dictionary denotes. */
  function ToMap<V>(d: Dict<V>): (m: map<string, V>)
    ensures forall k :: k in m <==> HasKey(d, k)
    ensures forall k :: k in m ==> Get(d, k) == Some(m[k])
  {
    if |d| == 0 then map[]
    else
      var m := ToMap(d[1..]);
      assert Keys(d) == [d[0].0] + Keys(d[1..]);
      m[d[0].0 := d[0].1]
  }

  lemma {:induction false} HasKeyIndex<V>(d: Dict<V>, k: string)
    requires HasKey(d, k)
    ensures exists i :: 0 <= i < |d| && d[i].0 == k
  {
    var ks := Keys(d);
    var i :| 0 <= i < |ks| && ks[i] == k;
    assert d[i].0 == k;
  }

  /** Two duplicate-free dictionaries with the same keys in the same order and
      the same lookups are equal. */
  lemma {:induction false} ExtensionalEquality<V>(a: Dict<V>, b: Dict<V>)
    requires UniqueKeys(a) && UniqueKeys(b)
    requires Keys(a) == Keys(b)
    requires forall k :: Get(a, k) == Get(b, k)
    ensures a == b
  {
    assert |a| == |Keys(a)| == |b|;
    forall i | 0 <= i < |a|
      ensures a[i] == b[i]
    {
      assert Keys(a)[i] == a[i].0 && Keys(b)[i] == b[i].0;
      var k := a[i].0;
      assert Get(a, k) == Some(a[i].1);
      assert Get(b, k) == Some(b[i].1);
    }
  }

  // ---------------------------------------------------------------------------
  // Grouping: `if k in d: d[k].append(x) else: d[k] = [x]`

  /** `y` is in the list stored under `k`. */
  predicate InGroup<T(==)>(d: Dict<seq<T>>, k: string, y: T) {
    match Get(d, k)
    case Some(ys) => y in ys
    case None => false
  }

  function Group<T>(d: Dict<seq<T>>, k: string, x: T): Dict<seq<T>> {
    var prior := match Get(d, k) case Some(xs) => xs case None => [];
    Put(d, k, prior + [x])
  }

  lemma GroupMembers<T>(d: Dict<seq<T>>, k: string, x: T)
    ensures forall k', y :: InGroup(Group(d, k, x), k', y) <==> InGroup(d, k', y) || (k' == k && y == x)
  {
    forall k', y
      ensures InGroup(Group(d, k, x), k', y) <==> InGroup(d, k', y) || (k' == k && y == x)
    {
      var prior := match Get(d, k) case Some(xs) => xs case None => [];
      PutGet(d, k, prior + [x], k');
    }
  }

  /** Every entry after `d[k] = v` was in `d` or is the new one. */
  lemma {:induction false} PutEntries<V>(d: Dict<V>, k: string, v: V)
    ensures forall e :: e in Put(d, k, v) ==> e in d || e == (k, v)
  {
    if |d| > 0 && d[0].0 != k {
      PutEntries(d[1..], k, v);
      assert Put(d, k, v) == [d[0]] + Put(d[1..], k, v);
    }
  }

  /** Every value the dictionary lists comes from `all`. */
  predicate DrawnFrom<T(==)>(d: Dict<seq<T>>, all: seq<T>) {
    forall e, y :: e in d && y in e.1 ==> y in all
  }

  lemma GroupDrawn<T>(acc: Dict<seq<T>>, k: string, x: T, all: seq<T>)
    requires DrawnFrom(acc, all) && x in all
    ensures DrawnFrom(Group(acc, k, x), all)
  {
    var prior := match Get(acc, k) case Some(xs) => xs case None => [];
    PutEntries(acc, k, prior + [x]);
    if Get(acc, k).Some? {
      assert (k, Get(acc, k).value) in acc;
    }
  }

  /** `for x in xs: k = key(x); d.setdefault(k, []).append(x)` with the
      keys worked out beforehand: `keys[i]` is the key of `xs[i]`, or the
      error computing it raised, which stops the fold. */
  function GroupByKeys<T>(keys: seq<Result<string>>, xs: seq<T>, acc: Dict<seq<T>>): Result<Dict<seq<T>>>
    requires |keys| == |xs|
    decreases |xs|
  {
    if |xs| == 0 then Success(acc)
    else
      var k :- keys[0];
      GroupByKeys(keys[1..], xs[1..], Group(acc, k, xs[0]))
  }

  /** The fold succeeds exactly when every key does. */
  lemma {:induction false} GroupByKeysSuccess<T>(keys: seq<Result<string>>, xs: seq<T>, acc: Dict<seq<T>>)
    requires |keys| == |xs|
    ensures GroupByKeys(keys, xs, acc).Success? <==> forall i :: 0 <= i < |keys| ==> keys[i].Success?
    decreases |xs|
  {
    if |xs| > 0 && keys[0].Success? {
      GroupByKeysSuccess(keys[1..], xs[1..], Group(acc, keys[0].value, xs[0]));
      assert forall i :: 0 < i < |keys| ==> keys[i] == keys[1..][i - 1];
    }
  }

  /** A failed fold fails with the error of one of the keys. */
  lemma {:induction false} GroupByKeysFirstError<T>(keys: seq<Result<string>>, xs: seq<T>, acc: Dict<seq<T>>)
    requires |keys| == |xs| && GroupByKeys(keys, xs, acc).Failure?
    ensures exists i :: 0 <= i < |keys| && keys[i] == Failure(GroupByKeys(keys, xs, acc).error)
    decreases |xs|
  {
    if keys[0].Success? {
      GroupByKeysFirstError(keys[1..], xs[1..], Group(acc, keys[0].value, xs[0]));
      var i :| 0 <= i < |keys| - 1 && keys[1..][i] == Failure(GroupByKeys(keys, xs, acc).error);
      assert keys[1..][i] == keys[i + 1];
    }
  }

  /** Some `xs[i] == y` has the key `k`. */
  predicate KeyedAs<T(==)>(keys: seq<Result<string>>, xs: seq<T>, k: string, y: T)
    requires |keys| == |xs|
  {
    exists i :: 0 <= i < |xs| && xs[i] == y && keys[i] == Success(k)
  }

  /** The fold adds each value to the group of its own key and nothing
      else. */
  lemma {:induction false} GroupByKeysMembers<T>(keys: seq<Result<string>>, xs: seq<T>, acc: Dict<seq<T>>)
    requires |keys| == |xs| && GroupByKeys(keys, xs, acc).Success?
    ensures forall k, y :: InGroup(GroupByKeys(keys, xs, acc).value, k, y) <==>
              InGroup(acc, k, y) || KeyedAs(keys, xs, k, y)
    decreases |xs|
  {
    if |xs| > 0 {
      var k := keys[0].value;
      var acc' := Group(acc, k, xs[0]);
      GroupMembers(acc, k, xs[0]);
      GroupByKeysMembers(keys[1..], xs[1..], acc');
      forall k', y
        ensures KeyedAs(keys, xs, k', y) <==> (k' == k && y == xs[0]) || KeyedAs(keys[1..], xs[1..], k', y)
      {
        if i :| 0 <= i < |xs| && xs[i] == y && keys[i] == Success(k') {
          if i > 0 {
            assert xs[1..][i - 1] == y && keys[1..][i - 1] == Success(k');
          }
        }
        if i :| 0 <= i < |xs| - 1 && xs[1..][i] == y && keys[1..][i] == Success(k') {
          assert xs[i + 1] == y && keys[i + 1] == Success(k');
        }
      }
    }
  }

  /** The fold lists only values it was given or found in `acc`. */
  lemma {:induction false} GroupByKeysDrawn<T>(keys: seq<Result<string>>, xs: seq<T>, acc: Dict<seq<T>>, all: seq<T>)
    requires |keys| == |xs| && GroupByKeys(keys, xs, acc).Success?
    requires DrawnFrom(acc, all) && forall i :: 0 <= i < |xs| ==> xs[i] in all
    ensures DrawnFrom(GroupByKeys(keys, xs, acc).value, all)
    decreases |xs|
  {
    if |xs| > 0 {
      var k := keys[0].value;
      GroupDrawn(acc, k, xs[0], all);
      GroupByKeysDrawn(keys[1..], xs[1..], Group(acc, k, xs[0]), all);
    }
  }

  /** The fold keeps keys unique. */
  lemma {:induction false} GroupByKeysUnique<T>(keys: seq<Result<string>>, xs: seq<T>, acc: Dict<seq<T>>)
    requires |keys| == |xs| && UniqueKeys(acc) && GroupByKeys(keys, xs, acc).Success?
    ensures UniqueKeys(GroupByKeys(keys, xs, acc).value)
    decreases |xs|
  {
    if |xs| > 0 {
      var k := keys[0].value;
      var prior := match Get(acc, k) case Some(ys) => ys case None => [];
      PutUnique(acc, k, prior + [xs[0]]);
      GroupByKeysUnique(keys[1..], xs[1..], Group(acc, k, xs[0]));
    }
  }

  /** `chain(*d.values())`: the lists one after another, in key order. */
  function Chain<T(!new)>(d: Dict<seq<T>>): (r: seq<T>)
    ensures forall x :: x in r <==> exists e :: e in d && x in e.1
  {
    if |d| == 0 then []
    else
      var rest := Chain(d[1..]);
      assert forall e :: e in d <==> e == d[0] || e in d[1..];
      d[0].1 + rest
  }

  /** `d.values()`, in key order. */
  function Values<V>(d: Dict<V>): (r: seq<V>)
    ensures |r| == |d| && forall i :: 0 <= i < |d| ==> r[i] == d[i].1
  {
    seq(|d|, i requires 0 <= i < |d| => d[i].1)
  }
}

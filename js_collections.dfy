/**
 * The two insertion-ordered collections of JavaScript that the chatbot
 * service leans on: a `Set` (spread back into an array, which lists each
 * value once, at the place it was first added) and a plain object used as
 * a dictionary (whose keys are listed in the order they were first
 * assigned; assigning an existing key changes its value and keeps its
 * place).
 */
module JsCollections {
  import opened Wrappers

  predicate Distinct<T(==)>(xs: seq<T>) {
    forall i, j :: 0 <= i < j < |xs| ==> xs[i] != xs[j]
  }

  /** The position of the first occurrence of `x` in `xs`. */
  function FirstIndex<T(==)>(xs: seq<T>, x: T): (k: nat)
    requires x in xs
    ensures k < |xs| && xs[k] == x
    ensures forall j :: 0 <= j < k ==> xs[j] != x
  {
    if xs[0] == x then 0 else 1 + FirstIndex(xs[1..], x)
  }

  /** `[...new Set(xs)]`: the values of `xs`, each once, in the order of first appearance. */
  function Dedup<T(==)>(xs: seq<T>): (r: seq<T>)
    ensures Distinct(r)
    ensures forall i :: 0 <= i < |r| ==> r[i] in xs
    ensures forall i :: 0 <= i < |xs| ==> xs[i] in r
    ensures |r| <= |xs|
    decreases |xs|
  {
    if xs == [] then []
    else
      var r := Dedup(xs[..|xs| - 1]);
      if xs[|xs| - 1] in r then r else r + [xs[|xs| - 1]]
  }

  lemma {:induction false} FirstIndexPrefix<T>(xs: seq<T>, n: nat, x: T)
    requires n <= |xs| && x in xs[..n]
    ensures FirstIndex(xs[..n], x) == FirstIndex(xs, x)
  {
    var k := FirstIndex(xs[..n], x);
    var k' := FirstIndex(xs, x);
    assert xs[k] == x;
    assert k' <= k;
    assert xs[..n][k'] == x;
  }

  /**
   * Dedup keeps first-seen order: the values it lists appear in the order
   * of their first occurrences in the input.
   */
  lemma {:induction false} DedupFirstSeenOrder<T>(xs: seq<T>)
    ensures forall i, j :: 0 <= i < j < |Dedup(xs)| ==>
              FirstIndex(xs, Dedup(xs)[i]) < FirstIndex(xs, Dedup(xs)[j])
    decreases |xs|
  {
    if xs != [] {
      DedupFirstSeenOrder(xs[..|xs| - 1]);
      forall i, j | 0 <= i < j < |Dedup(xs)| ensures FirstIndex(xs, Dedup(xs)[i]) < FirstIndex(xs, Dedup(xs)[j]) {
        DedupFirstSeenPair(xs, xs[..|xs| - 1], i, j);
      }
    }
  }

  /** One pair of the ordering, given the ordering of all but the last value. */
  lemma DedupFirstSeenPair<T>(xs: seq<T>, pre: seq<T>, i: nat, j: nat)
    requires xs != [] && pre == xs[..|xs| - 1]
    requires forall i, j :: 0 <= i < j < |Dedup(pre)| ==> FirstIndex(pre, Dedup(pre)[i]) < FirstIndex(pre, Dedup(pre)[j])
    requires i < j < |Dedup(xs)|
    ensures FirstIndex(xs, Dedup(xs)[i]) < FirstIndex(xs, Dedup(xs)[j])
  {
    var last := xs[|xs| - 1];
    var r, out := Dedup(pre), Dedup(xs);
    assert xs[..|pre|] == pre;
    assert out == if last in r then r else r + [last];
    assert out[i] == r[i] && out[i] in pre;
    FirstIndexPrefix(xs, |pre|, out[i]);
    if j < |r| {
      assert out[j] == r[j] && out[j] in pre;
      FirstIndexPrefix(xs, |pre|, out[j]);
    } else {
      assert out[j] == last && last !in pre;
      assert FirstIndex(xs, last) == |pre|;
    }
  }

  /** A list of distinct values is its own deduplication. */
  lemma {:induction false} DedupDistinct<T>(xs: seq<T>)
    requires Distinct(xs)
    ensures Dedup(xs) == xs
    decreases |xs|
  {
    if xs != [] {
      var pre := xs[..|xs| - 1];
      DedupDistinct(pre);
      assert xs[|xs| - 1] !in pre;
      assert pre + [xs[|xs| - 1]] == xs;
    }
  }

  /** Deduplicating a longer list only appends to the deduplicated prefix. */
  lemma {:induction false} DedupExtends<T>(xs: seq<T>, n: nat)
    requires n <= |xs|
    ensures |Dedup(xs[..n])| <= |Dedup(xs)|
    ensures Dedup(xs)[..|Dedup(xs[..n])|] == Dedup(xs[..n])
    decreases |xs|
  {
    if n < |xs| {
      var pre := xs[..|xs| - 1];
      assert pre[..n] == xs[..n];
      DedupExtends(pre, n);
    } else {
      assert xs[..n] == xs;
    }
  }

  /** A prefix of distinct values survives deduplication unchanged. */
  lemma DedupDistinctPrefix<T>(xs: seq<T>, n: nat)
    requires n <= |xs| && Distinct(xs[..n])
    ensures n <= |Dedup(xs)| && Dedup(xs)[..n] == xs[..n]
  {
    DedupExtends(xs, n);
    DedupDistinct(xs[..n]);
  }

  // ---------------------------------------------------------------------
  // A plain JavaScript object used as a dictionary.

  /** One property of an object: its key and its value. */
  datatype Entry<V> = Entry(key: string, value: V)

  /** The properties of an object, in the order `Object.entries` lists them. */
  type Dict<V> = seq<Entry<V>>

  function Keys<V>(d: Dict<V>): (ks: seq<string>)
    ensures |ks| == |d|
    ensures forall i :: 0 <= i < |d| ==> ks[i] == d[i].key
  {
    seq(|d|, i requires 0 <= i < |d| => d[i].key)
  }

  lemma KeysAppend<V>(a: Dict<V>, b: Dict<V>)
    ensures Keys(a + b) == Keys(a) + Keys(b)
  {
  }

  /** A JavaScript object never holds the same key twice. */
  predicate ValidDict<V>(d: Dict<V>) {
    Distinct(Keys(d))
  }

  /** `d[k]`: the value stored under `k`, if any. */
  function Lookup<V>(d: Dict<V>, k: string): (r: Option<V>)
    ensures r.Some? <==> k in Keys(d)
  {
    if k in Keys(d) then Some(d[FirstIndex(Keys(d), k)].value) else None
  }

  /** In a valid dictionary, the value found under a key is the one stored beside it. */
  lemma LookupAt<V>(d: Dict<V>, i: nat)
    requires ValidDict(d) && i < |d|
    ensures Lookup(d, d[i].key) == Some(d[i].value)
  {
    var k := FirstIndex(Keys(d), d[i].key);
    assert Keys(d)[k] == Keys(d)[i];
  }

  /**
   * `d[k] = v`: an existing key keeps its place and takes the new value; a
   * new key is added at the end.
   */
  function Assign<V>(d: Dict<V>, k: string, v: V): (r: Dict<V>)
    ensures |r| == if k in Keys(d) then |d| else |d| + 1
    ensures forall i :: 0 <= i < |d| ==> r[i] == if d[i].key == k then Entry(k, v) else d[i]
    ensures k !in Keys(d) ==> r[|d|] == Entry(k, v)
  {
    if k in Keys(d) then seq(|d|, i requires 0 <= i < |d| => if d[i].key == k then Entry(k, v) else d[i])
    else d + [Entry(k, v)]
  }

  /** The keys after an assignment: unchanged for an existing key, one more at the end for a new one. */
  lemma AssignKeys<V>(d: Dict<V>, k: string, v: V)
    ensures Keys(Assign(d, k, v)) == if k in Keys(d) then Keys(d) else Keys(d) + [k]
  {
  }

  /** An assignment keeps every key unique. */
  lemma AssignValid<V>(d: Dict<V>, k: string, v: V)
    requires ValidDict(d)
    ensures ValidDict(Assign(d, k, v))
  {
    AssignKeys(d, k, v);
  }

  /** After `d[k] = v`, `d[k]` is `v`. */
  lemma AssignLookupSame<V>(d: Dict<V>, k: string, v: V)
    requires ValidDict(d)
    ensures Lookup(Assign(d, k, v), k) == Some(v)
  {
    var r := Assign(d, k, v);
    AssignValid(d, k, v);
    if k in Keys(d) {
      LookupAt(r, FirstIndex(Keys(d), k));
    } else {
      LookupAt(r, |d|);
    }
  }

  /** After `d[k] = v`, every other key reads as before. */
  lemma AssignLookupOther<V>(d: Dict<V>, k: string, v: V, k': string)
    requires ValidDict(d) && k' != k
    ensures Lookup(Assign(d, k, v), k') == Lookup(d, k')
  {
    var r := Assign(d, k, v);
    AssignKeys(d, k, v);
    AssignValid(d, k, v);
    if k' in Keys(d) {
      var i := FirstIndex(Keys(d), k');
      LookupAt(d, i);
      LookupAt(r, i);
    }
  }

  /** An assignment keeps every key unique, sets `k` and leaves every other key alone. */
  lemma AssignLookup<V>(d: Dict<V>, k: string, v: V)
    requires ValidDict(d)
    ensures ValidDict(Assign(d, k, v))
    ensures Lookup(Assign(d, k, v), k) == Some(v)
    ensures forall k' :: k' != k ==> Lookup(Assign(d, k, v), k') == Lookup(d, k')
  {
    AssignValid(d, k, v);
    AssignLookupSame(d, k, v);
    forall k' | k' != k ensures Lookup(Assign(d, k, v), k') == Lookup(d, k') {
      AssignLookupOther(d, k, v, k');
    }
  }

  /** Assigning the entries `kvs` one after another, in order. */
  function AssignAll<V>(d: Dict<V>, kvs: seq<Entry<V>>): (r: Dict<V>)
    decreases |kvs|
  {
    if kvs == [] then d
    else
      var last := kvs[|kvs| - 1];
      Assign(AssignAll(d, kvs[..|kvs| - 1]), last.key, last.value)
  }

  /** Deduplicating one more value: it is appended unless it was already seen. */
  lemma DedupSnoc<T>(xs: seq<T>, x: T)
    ensures Dedup(xs + [x]) == if x in Dedup(xs) then Dedup(xs) else Dedup(xs) + [x]
  {
    assert (xs + [x])[..|xs|] == xs;
  }

  /** The keys of a run are the keys of all but its last entry, then the last key. */
  lemma KeysSnoc<V>(kvs: seq<Entry<V>>)
    requires kvs != []
    ensures Keys(kvs) == Keys(kvs[..|kvs| - 1]) + [kvs[|kvs| - 1].key]
  {
  }

  /** One more assignment, seen through the keys. */
  lemma AssignAllKeysStep<V>(d: Dict<V>, kvs: seq<Entry<V>>)
    requires kvs != []
    ensures Keys(AssignAll(d, kvs)) ==
              var m := Keys(AssignAll(d, kvs[..|kvs| - 1]));
              if kvs[|kvs| - 1].key in m then m else m + [kvs[|kvs| - 1].key]
  {
    var last := kvs[|kvs| - 1];
    var m := AssignAll(d, kvs[..|kvs| - 1]);
    assert AssignAll(d, kvs) == Assign(m, last.key, last.value);
    AssignKeys(m, last.key, last.value);
  }

  /**
   * The keys after a run of assignments are the keys before, then the new
   * keys in the order each was first assigned; so they stay unique.
   */
  lemma {:induction false} AssignAllKeys<V>(d: Dict<V>, kvs: seq<Entry<V>>)
    requires ValidDict(d)
    ensures Keys(AssignAll(d, kvs)) == Dedup(Keys(d) + Keys(kvs))
    ensures ValidDict(AssignAll(d, kvs))
    decreases |kvs|
  {
    if kvs == [] {
      assert Keys(d) + Keys(kvs) == Keys(d);
      DedupDistinct(Keys(d));
    } else {
      var pre := kvs[..|kvs| - 1];
      var last := kvs[|kvs| - 1].key;
      AssignAllKeys(d, pre);
      AssignAllKeysStep(d, kvs);
      KeysSnoc(kvs);
      var before := Keys(d) + Keys(pre);
      assert Keys(d) + Keys(kvs) == before + [last];
      DedupSnoc(before, last);
    }
  }

  /** A run of assignments keeps every key unique. */
  lemma AssignAllValid<V>(d: Dict<V>, kvs: seq<Entry<V>>)
    requires ValidDict(d)
    ensures ValidDict(AssignAll(d, kvs))
  {
    AssignAllKeys(d, kvs);
  }

  /** A key that no entry of the run assigns keeps its value. */
  lemma {:induction false} AssignAllUntouched<V>(d: Dict<V>, kvs: seq<Entry<V>>, k: string)
    requires ValidDict(d)
    requires k !in Keys(kvs)
    ensures Lookup(AssignAll(d, kvs), k) == Lookup(d, k)
    decreases |kvs|
  {
    if kvs != [] {
      var pre := kvs[..|kvs| - 1];
      var last := kvs[|kvs| - 1];
      KeysSnoc(kvs);
      AssignAllUntouched(d, pre, k);
      AssignAllValid(d, pre);
      AssignLookupOther(AssignAll(d, pre), last.key, last.value, k);
    }
  }

  /**
   * Last write wins: after a run of assignments, a key holds the value of
   * the last entry that assigned it.
   */
  lemma {:induction false} AssignAllLastWrite<V>(d: Dict<V>, kvs: seq<Entry<V>>, i: nat)
    requires ValidDict(d)
    requires i < |kvs|
    requires forall j :: i < j < |kvs| ==> kvs[j].key != kvs[i].key
    ensures Lookup(AssignAll(d, kvs), kvs[i].key) == Some(kvs[i].value)
    decreases |kvs|
  {
    var pre := kvs[..|kvs| - 1];
    var last := kvs[|kvs| - 1];
    var m := AssignAll(d, pre);
    assert AssignAll(d, kvs) == Assign(m, last.key, last.value);
    AssignAllValid(d, pre);
    if i < |pre| {
      assert pre[i] == kvs[i];
      assert forall j :: i < j < |pre| ==> pre[j].key != pre[i].key by {
        forall j | i < j < |pre| ensures pre[j].key != pre[i].key {
          assert pre[j] == kvs[j];
        }
      }
      AssignAllLastWrite(d, pre, i);
      AssignLookupOther(m, last.key, last.value, kvs[i].key);
    } else {
      AssignLookupSame(m, last.key, last.value);
    }
  }

  /** One more entry is one more assignment. */
  lemma AssignAllSnoc<V>(d: Dict<V>, kvs: seq<Entry<V>>, e: Entry<V>)
    ensures AssignAll(d, kvs + [e]) == Assign(AssignAll(d, kvs), e.key, e.value)
  {
    assert (kvs + [e])[..|kvs|] == kvs;
  }

  /** Assigning two runs one after the other is assigning their concatenation. */
  lemma {:induction false} AssignAllAppend<V>(d: Dict<V>, a: seq<Entry<V>>, b: seq<Entry<V>>)
    ensures AssignAll(AssignAll(d, a), b) == AssignAll(d, a + b)
    decreases |b|
  {
    if b == [] {
      assert a + b == a;
    } else {
      var pre, last := b[..|b| - 1], b[|b| - 1];
      AssignAllAppend(d, a, pre);
      assert b == pre + [last];
      assert a + b == (a + pre) + [last];
      AssignAllSnoc(d, a + pre, last);
      AssignAllSnoc(AssignAll(d, a), pre, last);
    }
  }

  /** A run of assignments holds no value that fails `ok` unless the dictionary or an entry held one. */
  lemma {:induction false} AssignAllValues<V>(d: Dict<V>, kvs: seq<Entry<V>>, ok: V -> bool)
    requires forall i :: 0 <= i < |d| ==> ok(d[i].value)
    requires forall i :: 0 <= i < |kvs| ==> ok(kvs[i].value)
    ensures forall i :: 0 <= i < |AssignAll(d, kvs)| ==> ok(AssignAll(d, kvs)[i].value)
    decreases |kvs|
  {
    if kvs != [] {
      AssignAllValues(d, kvs[..|kvs| - 1], ok);
    }
  }

}

/** `collections.Counter` as the analyzer uses it: a table from keys to
    occurrence counts that remembers the order in which keys were first
    inserted. */
module Counter {

  datatype Entry<K> = Entry(key: K, count: nat)

  /** The table's entries in insertion order. */
  type Table<K> = seq<Entry<K>>

  function Keys<K>(t: Table<K>): seq<K>
  {
    seq(|t|, i requires 0 <= i < |t| => t[i].key)
  }

  predicate NoDuplicates<K(==)>(ks: seq<K>)
  {
    forall i, j :: 0 <= i < j < |ks| ==> ks[i] != ks[j]
  }

  /** A well-formed table: every key once, every count positive. */
  predicate Valid<K(==)>(t: Table<K>)
  {
    NoDuplicates(Keys(t)) && forall i :: 0 <= i < |t| ==> t[i].count > 0
  }

  /** `counter[k]`: a key that is absent reads as zero. */
  function Get<K(==)>(t: Table<K>, k: K): nat
  {
    if t == [] then 0 else if t[0].key == k then t[0].count else Get(t[1..], k)
  }

  /** `sum(counter.values())` */
  function Total<K>(t: Table<K>): nat
  {
    if t == [] then 0 else t[0].count + Total(t[1..])
  }

  /** The dictionary view `dict(counter)`. */
  function ToMap<K(==)>(t: Table<K>): map<K, nat>
  {
    map k | k in Keys(t) :: Get(t, k)
  }

  /** Position of the first occurrence of `k` in `s`, or `|s|` when absent. */
  function FirstIndex<K(==)>(s: seq<K>, k: K): (i: nat)
    ensures i <= |s|
  {
    if s == [] then 0 else if s[0] == k then 0 else 1 + FirstIndex(s[1..], k)
  }

  /** One counting step, `counter[x] = counter.get(x, 0) + 1`: an existing
      key keeps its place and its count grows; a new key goes last with
      count one. */
  function Add<K(==)>(t: Table<K>, x: K): (r: Table<K>)
  {
    if t == [] then [Entry(x, 1)]
    else if t[0].key == x then [Entry(x, t[0].count + 1)] + t[1..]
    else [t[0]] + Add(t[1..], x)
  }

  /** `Counter(xs)`: the elements of `xs` counted in order. */
  function Count<K(==)>(xs: seq<K>): (r: Table<K>)
  {
    if xs == [] then [] else Add(Count(xs[..|xs| - 1]), xs[|xs| - 1])
  }

  /** Counting one more element is one more counting step. */
  lemma CountSnoc<K>(xs: seq<K>, x: K)
    ensures Count(xs + [x]) == Add(Count(xs), x)
  {
    assert (xs + [x])[..|xs|] == xs;
  }

  // ---------------------------------------------------------------------
  // One counting step

  lemma {:induction false} AddKeys<K>(t: Table<K>, x: K)
    ensures Keys(Add(t, x)) == if x in Keys(t) then Keys(t) else Keys(t) + [x]
  {
    if t != [] {
      assert Keys(t) == [t[0].key] + Keys(t[1..]);
      if t[0].key != x {
        AddKeys(t[1..], x);
        assert Keys(Add(t, x)) == [t[0].key] + Keys(Add(t[1..], x));
      } else {
        assert Keys(Add(t, x)) == [x] + Keys(t[1..]);
      }
    }
  }

  lemma {:induction false} AddGet<K>(t: Table<K>, x: K, k: K)
    ensures Get(Add(t, x), k) == Get(t, k) + (if k == x then 1 else 0)
  {
    if t != [] && t[0].key != x {
      AddGet(t[1..], x, k);
    }
  }

  lemma {:induction false} AddTotal<K>(t: Table<K>, x: K)
    ensures Total(Add(t, x)) == Total(t) + 1
  {
    if t != [] && t[0].key != x {
      AddTotal(t[1..], x);
    }
  }

  lemma {:induction false} AddValid<K>(t: Table<K>, x: K)
    requires Valid(t)
    ensures Valid(Add(t, x))
  {
    AddKeys(t, x);
    var r := Add(t, x);
    forall i | 0 <= i < |r| ensures r[i].count > 0 {
      AddCountsPositive(t, x, i);
    }
  }

  lemma {:induction false} AddCountsPositive<K>(t: Table<K>, x: K, i: nat)
    requires forall j :: 0 <= j < |t| ==> t[j].count > 0
    requires i < |Add(t, x)|
    ensures Add(t, x)[i].count > 0
  {
    if t != [] && t[0].key != x && i > 0 {
      AddCountsPositive(t[1..], x, i - 1);
    }
  }

  // ---------------------------------------------------------------------
  // Counting a whole sequence

  /** The table built by `Counter(xs)` is well formed. */
  lemma {:induction false} CountValid<K>(xs: seq<K>)
    ensures Valid(Count(xs))
  {
    if xs != [] {
      CountValid(xs[..|xs| - 1]);
      AddValid(Count(xs[..|xs| - 1]), xs[|xs| - 1]);
    }
  }

  /** Each key's count is its number of occurrences in `xs`. */
  lemma {:induction false} CountGet<K>(xs: seq<K>, k: K)
    ensures Get(Count(xs), k) == multiset(xs)[k]
  {
    if xs != [] {
      var init, last := xs[..|xs| - 1], xs[|xs| - 1];
      assert xs == init + [last];
      CountGet(init, k);
      AddGet(Count(init), last, k);
    }
  }

  /** The keys are exactly the distinct elements of `xs`. */
  lemma {:induction false} CountKeys<K>(xs: seq<K>)
    ensures forall k :: k in Keys(Count(xs)) <==> k in xs
  {
    if xs != [] {
      var init, last := xs[..|xs| - 1], xs[|xs| - 1];
      assert xs == init + [last];
      CountKeys(init);
      AddKeys(Count(init), last);
    }
  }

  /** The counts add up to the length of `xs`. */
  lemma {:induction false} CountTotal<K>(xs: seq<K>)
    ensures Total(Count(xs)) == |xs|
  {
    if xs != [] {
      CountTotal(xs[..|xs| - 1]);
      AddTotal(Count(xs[..|xs| - 1]), xs[|xs| - 1]);
    }
  }

  /** The keys appear in the order of their first occurrence in `xs`. */
  lemma {:induction false} CountFirstSeenOrder<K>(xs: seq<K>)
    ensures forall i, j :: 0 <= i < j < |Keys(Count(xs))| ==>
              FirstIndex(xs, Keys(Count(xs))[i]) < FirstIndex(xs, Keys(Count(xs))[j])
  {
    if xs != [] {
      var init, last := xs[..|xs| - 1], xs[|xs| - 1];
      assert xs == init + [last];
      CountFirstSeenOrder(init);
      CountKeys(init);
      AddKeys(Count(init), last);
      var ks0, ks := Keys(Count(init)), Keys(Count(xs));
      forall k | k in init ensures FirstIndex(xs, k) == FirstIndex(init, k) {
        FirstIndexExtend(init, last, k);
      }
      if last !in init {
        FirstIndexAbsent(init, last);
        FirstIndexExtend(init, last, last);
        forall k | k in init ensures FirstIndex(init, k) < |init| {
          FirstIndexPresent(init, k);
        }
      }
    }
  }

  lemma {:induction false} FirstIndexExtend<K>(s: seq<K>, x: K, k: K)
    requires k in s || k == x
    ensures FirstIndex(s + [x], k) == if k in s then FirstIndex(s, k) else |s|
  {
    if s != [] && s[0] != k {
      assert (s + [x])[1..] == s[1..] + [x];
      assert k in s <==> k in s[1..];
      FirstIndexExtend(s[1..], x, k);
    }
  }

  lemma {:induction false} FirstIndexAbsent<K>(s: seq<K>, k: K)
    requires k !in s
    ensures FirstIndex(s, k) == |s|
  {
    if s != [] {
      FirstIndexAbsent(s[1..], k);
    }
  }

  lemma {:induction false} FirstIndexPresent<K>(s: seq<K>, k: K)
    requires k in s
    ensures FirstIndex(s, k) < |s| && s[FirstIndex(s, k)] == k
  {
    if s[0] != k {
      FirstIndexPresent(s[1..], k);
    }
  }

  /** As a dictionary, `Counter(xs)` maps each distinct element of `xs` to
      its number of occurrences. */
  lemma CountMap<K>(xs: seq<K>)
    ensures ToMap(Count(xs)) == map k | k in xs :: multiset(xs)[k]
  {
    CountKeys(xs);
    var m, spec := ToMap(Count(xs)), map k | k in xs :: multiset(xs)[k];
    assert m.Keys == spec.Keys;
    forall k | k in m ensures m[k] == spec[k] {
      CountGet(xs, k);
    }
  }

  // ---------------------------------------------------------------------
  // Reading a well-formed table

  /** In a well-formed table, looking a key up gives the count stored with it. */
  lemma {:induction false} GetEntry<K>(t: Table<K>, i: nat)
    requires Valid(t) && i < |t|
    ensures Get(t, t[i].key) == t[i].count
  {
    if i > 0 {
      assert Keys(t)[0] != Keys(t)[i];
      ValidTail(t);
      GetEntry(t[1..], i - 1);
    }
  }

  lemma ValidTail<K>(t: Table<K>)
    requires Valid(t) && t != []
    ensures Valid(t[1..])
  {
    forall i, j | 0 <= i < j < |t[1..]| ensures Keys(t[1..])[i] != Keys(t[1..])[j] {
      assert Keys(t[1..])[i] == Keys(t)[i + 1] && Keys(t[1..])[j] == Keys(t)[j + 1];
    }
  }
}

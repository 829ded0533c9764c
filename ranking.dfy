/** `Counter.most_common(n)`: the entries sorted by count, highest first,
    with equal counts kept in insertion order (Python's sort is stable),
    cut to the first `n`; nothing at all when `n <= 0`. */
module Ranking {
  import opened Counter
  import Comprehension

  /** Counts never increase from left to right. */
  predicate NonIncreasing<K>(s: Table<K>)
  {
    forall i, j :: 0 <= i < j < |s| ==> s[i].count >= s[j].count
  }

  /** Places `e` before the first entry whose count is not larger. */
  function Insert<K>(e: Entry<K>, s: Table<K>): (r: Table<K>)
  {
    if s == [] || s[0].count <= e.count then [e] + s
    else [s[0]] + Insert(e, s[1..])
  }

  /** `sorted(entries, key=count, reverse=True)` */
  function SortByCount<K>(s: Table<K>): (r: Table<K>)
  {
    if s == [] then [] else Insert(s[0], SortByCount(s[1..]))
  }

  /** `counter.most_common(n)` */
  function MostCommon<K>(t: Table<K>, n: int): (r: Table<K>)
  {
    var sorted := SortByCount(t);
    if n <= 0 then [] else if n >= |sorted| then sorted else sorted[..n]
  }

  function HasCount<K>(c: nat): Entry<K> -> bool
  {
    (e: Entry<K>) => e.count == c
  }

  /** The entries of `s` whose count is `c`, in the order of `s`. */
  function WithCount<K>(s: Table<K>, c: nat): Table<K>
  {
    Comprehension.Select(s, HasCount(c))
  }

  // ---------------------------------------------------------------------
  // The stable sort

  lemma {:induction false} InsertPermutes<K>(e: Entry<K>, s: Table<K>)
    ensures multiset(Insert(e, s)) == multiset{e} + multiset(s)
  {
    if s != [] && s[0].count > e.count {
      InsertPermutes(e, s[1..]);
      assert s == [s[0]] + s[1..];
    }
  }

  lemma {:induction false} SortPermutes<K>(s: Table<K>)
    ensures multiset(SortByCount(s)) == multiset(s)
  {
    if s != [] {
      SortPermutes(s[1..]);
      InsertPermutes(s[0], SortByCount(s[1..]));
      assert s == [s[0]] + s[1..];
    }
  }

  lemma {:induction false} InsertSorted<K>(e: Entry<K>, s: Table<K>)
    requires NonIncreasing(s)
    ensures NonIncreasing(Insert(e, s))
  {
    if s != [] && s[0].count > e.count {
      InsertSorted(e, s[1..]);
      InsertPermutes(e, s[1..]);
      var r := Insert(e, s[1..]);
      forall j | 0 <= j < |r| ensures s[0].count >= r[j].count {
        assert r[j] in multiset(r);
      }
    }
  }

  /** The sorted table has counts highest first. */
  lemma {:induction false} SortSorted<K>(s: Table<K>)
    ensures NonIncreasing(SortByCount(s))
  {
    if s != [] {
      SortSorted(s[1..]);
      InsertSorted(s[0], SortByCount(s[1..]));
    }
  }

  lemma WithCountCons<K>(e: Entry<K>, s: Table<K>, c: nat)
    ensures WithCount([e] + s, c) == (if e.count == c then [e] else []) + WithCount(s, c)
  {
    Comprehension.SelectAppend([e], s, HasCount(c));
    assert [e][..0] == [];
  }

  lemma {:induction false} InsertStable<K>(e: Entry<K>, s: Table<K>, c: nat)
    ensures WithCount(Insert(e, s), c) == WithCount([e] + s, c)
  {
    if s != [] && s[0].count > e.count {
      InsertStable(e, s[1..], c);
      WithCountCons(s[0], Insert(e, s[1..]), c);
      WithCountCons(e, s[1..], c);
      WithCountCons(e, s, c);
      WithCountCons(s[0], s[1..], c);
      assert s == [s[0]] + s[1..];
    }
  }

  /** Sorting keeps the entries of any one count in their original order. */
  lemma {:induction false} SortStable<K>(s: Table<K>, c: nat)
    ensures WithCount(SortByCount(s), c) == WithCount(s, c)
  {
    if s != [] {
      SortStable(s[1..], c);
      InsertStable(s[0], SortByCount(s[1..]), c);
      WithCountCons(s[0], SortByCount(s[1..]), c);
      WithCountCons(s[0], s[1..], c);
      assert s == [s[0]] + s[1..];
    }
  }

  // ---------------------------------------------------------------------
  // Properties of most_common(n)

  /** `min(n, len(counter))` entries, and none when `n <= 0`. */
  lemma MostCommonLength<K>(t: Table<K>, n: int)
    ensures |MostCommon(t, n)| == if n <= 0 then 0 else if n < |t| then n else |t|
  {
    SortPermutes(t);
    assert |multiset(SortByCount(t))| == |multiset(t)|;
  }

  /** Counts are highest first. */
  lemma MostCommonNonIncreasing<K>(t: Table<K>, n: int)
    ensures NonIncreasing(MostCommon(t, n))
  {
    SortSorted(t);
  }

  /** Every entry of the result is an entry of the table, none more often
      than in the table. */
  lemma MostCommonFromTable<K>(t: Table<K>, n: int)
    ensures multiset(MostCommon(t, n)) <= multiset(t)
    ensures forall e :: e in MostCommon(t, n) ==> e in t
  {
    var sorted, r := SortByCount(t), MostCommon(t, n);
    SortPermutes(t);
    assert sorted == r + sorted[|r|..];
    assert multiset(sorted) == multiset(r) + multiset(sorted[|r|..]);
    forall e | e in r ensures e in t {
      assert e in multiset(r);
      assert multiset(r)[e] <= multiset(t)[e];
    }
  }

  /** Each count in the result is the table's count for that key, and the
      result lists each key once. */
  lemma MostCommonCounts<K>(t: Table<K>, n: int)
    requires Valid(t)
    ensures forall i :: 0 <= i < |MostCommon(t, n)| ==>
              MostCommon(t, n)[i].count == Get(t, MostCommon(t, n)[i].key)
    ensures NoDuplicates(Keys(MostCommon(t, n)))
  {
    var r := MostCommon(t, n);
    MostCommonFromTable(t, n);
    forall i | 0 <= i < |r| ensures r[i].count == Get(t, r[i].key) {
      assert r[i] in r;
      var p :| 0 <= p < |t| && t[p] == r[i];
      GetEntry(t, p);
    }
    forall i, j | 0 <= i < j < |r| ensures r[i].key != r[j].key {
      if r[i].key == r[j].key {
        assert r[i] in r && r[j] in r;
        var p :| 0 <= p < |t| && t[p] == r[i];
        var q :| 0 <= q < |t| && t[q] == r[j];
        KeyDetermines(t, p, q);
        assert r[i] == r[j];
        // The entry t[p] would occur twice in r but occurs once in t.
        assert multiset(r) == multiset(r[..i]) + multiset{r[i]} + multiset(r[i+1..j]) + multiset{r[j]} + multiset(r[j+1..]) by {
          assert r == r[..i] + [r[i]] + r[i+1..j] + [r[j]] + r[j+1..];
        }
        assert multiset(r)[r[i]] >= 2;
        Unique(t, p);
      }
    }
  }

  lemma KeyDetermines<K>(t: Table<K>, p: nat, q: nat)
    requires Valid(t) && p < |t| && q < |t| && t[p].key == t[q].key
    ensures p == q
  {
    assert Keys(t)[p] == t[p].key && Keys(t)[q] == t[q].key;
  }

  /** In a table whose keys are distinct, each entry occurs once. */
  lemma Unique<K>(t: Table<K>, p: nat)
    requires Valid(t) && p < |t|
    ensures multiset(t)[t[p]] == 1
  {
    assert t == t[..p] + [t[p]] + t[p+1..];
    forall i | 0 <= i < |t| && i != p ensures t[i] != t[p] {
      assert Keys(t)[i] != Keys(t)[p];
    }
    assert t[p] !in t[..p] by {
      forall i | 0 <= i < p ensures t[..p][i] != t[p] { assert t[..p][i] == t[i]; }
    }
    var tail := t[p+1..];
    assert t[p] !in tail by {
      forall k | 0 <= k < |tail| ensures tail[k] != t[p] { assert tail[k] == t[p + 1 + k]; }
    }
    assert multiset(t) == multiset(t[..p]) + multiset{t[p]} + multiset(t[p+1..]);
  }

  /** The result holds the highest counts: an entry of the table left out
      counts no more than any entry chosen. */
  lemma MostCommonTop<K>(t: Table<K>, n: int)
    ensures forall e, i :: e in t && e !in MostCommon(t, n) && 0 <= i < |MostCommon(t, n)| ==>
              e.count <= MostCommon(t, n)[i].count
  {
    var sorted, r := SortByCount(t), MostCommon(t, n);
    SortPermutes(t);
    SortSorted(t);
    forall e, i | e in t && e !in r && 0 <= i < |r| ensures e.count <= r[i].count {
      assert e in multiset(sorted);
      var q :| 0 <= q < |sorted| && sorted[q] == e;
      assert sorted[..|r|] == r;
      assert q >= |r|;
    }
  }

  /** When `n` covers the whole table, the result is all of it. */
  lemma MostCommonAll<K>(t: Table<K>, n: int)
    requires n >= |t|
    ensures multiset(MostCommon(t, n)) == multiset(t)
    ensures Total(MostCommon(t, n)) == Total(t)
  {
    SortPermutes(t);
    SortTotal(t);
    if n <= 0 {
      assert t == [];
    }
  }

  lemma {:induction false} InsertTotal<K>(e: Entry<K>, s: Table<K>)
    ensures Total(Insert(e, s)) == e.count + Total(s)
  {
    if s != [] && s[0].count > e.count {
      InsertTotal(e, s[1..]);
    }
  }

  /** Sorting keeps the sum of the counts. */
  lemma {:induction false} SortTotal<K>(s: Table<K>)
    ensures Total(SortByCount(s)) == Total(s)
  {
    if s != [] {
      SortTotal(s[1..]);
      InsertTotal(s[0], SortByCount(s[1..]));
    }
  }

  /** Entries with equal counts come out in the table's insertion order. */
  lemma MostCommonTieOrder<K>(t: Table<K>, n: int)
    requires Valid(t)
    ensures forall i, j :: 0 <= i < j < |MostCommon(t, n)| && MostCommon(t, n)[i].count == MostCommon(t, n)[j].count ==>
              FirstIndex(Keys(t), MostCommon(t, n)[i].key) < FirstIndex(Keys(t), MostCommon(t, n)[j].key)
  {
    var r := MostCommon(t, n);
    forall i, j | 0 <= i < j < |r| && r[i].count == r[j].count
      ensures FirstIndex(Keys(t), r[i].key) < FirstIndex(Keys(t), r[j].key)
    {
      var c := r[i].count;
      WithCountPrefix(t, n, c);
      var p, q := Comprehension.SelectPrefixOrder(r, t, HasCount(c), i, j);
      KeyIndex(t, p);
      KeyIndex(t, q);
    }
  }

  /** The entries of one count in the result are the first few entries of
      that count in the table. */
  lemma WithCountPrefix<K>(t: Table<K>, n: int, c: nat)
    ensures |WithCount(MostCommon(t, n), c)| <= |WithCount(t, c)|
    ensures WithCount(MostCommon(t, n), c) == WithCount(t, c)[..|WithCount(MostCommon(t, n), c)|]
  {
    var sorted, r := SortByCount(t), MostCommon(t, n);
    SortStable(t, c);
    assert sorted == r + sorted[|r|..];
    Comprehension.SelectAppend(r, sorted[|r|..], HasCount(c));
  }

  /** In a well-formed table, a key's first index among the keys is the
      index of its entry. */
  lemma KeyIndex<K>(t: Table<K>, p: nat)
    requires Valid(t) && p < |t|
    ensures FirstIndex(Keys(t), t[p].key) == p
  {
    var ks := Keys(t);
    assert ks[p] == t[p].key;
    FirstIndexPresent(ks, t[p].key);
  }

  // ---------------------------------------------------------------------
  // most_common(n) on a table built by Counter(xs)

  /** `Counter(xs).most_common(n)` lists `min(n, len(counter))` distinct
      elements of `xs`, each with its number of occurrences, highest first. */
  lemma MostCommonOfCount<K>(xs: seq<K>, n: int)
    ensures var t, r := Count(xs), MostCommon(Count(xs), n);
      && |r| == (if n <= 0 then 0 else if n < |t| then n else |t|)
      && NonIncreasing(r)
      && NoDuplicates(Keys(r))
      && (forall i :: 0 <= i < |r| ==> r[i].key in xs && r[i].count == multiset(xs)[r[i].key])
  {
    var t, r := Count(xs), MostCommon(Count(xs), n);
    CountValid(xs);
    CountKeys(xs);
    MostCommonLength(t, n);
    MostCommonNonIncreasing(t, n);
    MostCommonCounts(t, n);
    MostCommonFromTable(t, n);
    forall i | 0 <= i < |r| ensures r[i].key in xs && r[i].count == multiset(xs)[r[i].key] {
      assert r[i] in r;
      var p :| 0 <= p < |t| && t[p] == r[i];
      assert Keys(t)[p] == r[i].key;
      CountGet(xs, r[i].key);
    }
  }

  /** Elements of `xs` with equal counts come out in the order of their
      first occurrence in `xs`. */
  lemma MostCommonOfCountTies<K>(xs: seq<K>, n: int)
    ensures var r := MostCommon(Count(xs), n);
      forall i, j :: 0 <= i < j < |r| && r[i].count == r[j].count ==>
        FirstIndex(xs, r[i].key) < FirstIndex(xs, r[j].key)
  {
    var t, r := Count(xs), MostCommon(Count(xs), n);
    CountValid(xs);
    MostCommonTieOrder(t, n);
    MostCommonFromTable(t, n);
    CountFirstSeenOrder(xs);
    var ks := Keys(t);
    forall i, j | 0 <= i < j < |r| && r[i].count == r[j].count
      ensures FirstIndex(xs, r[i].key) < FirstIndex(xs, r[j].key)
    {
      assert r[i] in r && r[j] in r;
      var p :| 0 <= p < |t| && t[p] == r[i];
      var q :| 0 <= q < |t| && t[q] == r[j];
      KeyIndex(t, p);
      KeyIndex(t, q);
      assert ks[p] == r[i].key && ks[q] == r[j].key;
    }
  }

  /** An element of `xs` that `most_common(n)` leaves out occurs no more
      often than any element it lists. */
  lemma MostCommonOfCountTop<K>(xs: seq<K>, n: int)
    ensures var r := MostCommon(Count(xs), n);
      forall x, i :: x in xs && x !in Keys(r) && 0 <= i < |r| ==> multiset(xs)[x] <= r[i].count
  {
    var t, r := Count(xs), MostCommon(Count(xs), n);
    CountValid(xs);
    CountKeys(xs);
    MostCommonTop(t, n);
    forall x, i | x in xs && x !in Keys(r) && 0 <= i < |r| ensures multiset(xs)[x] <= r[i].count {
      assert x in Keys(t);
      var p :| 0 <= p < |t| && Keys(t)[p] == x;
      GetEntry(t, p);
      CountGet(xs, x);
      KeyNotListed(r, t[p]);
    }
  }

  lemma KeyNotListed<K>(r: Table<K>, e: Entry<K>)
    requires e.key !in Keys(r)
    ensures e !in r
  {
    forall k | 0 <= k < |r| ensures r[k] != e {
      assert Keys(r)[k] == r[k].key;
    }
  }
}

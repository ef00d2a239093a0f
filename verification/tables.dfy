/**
 The handful of pandas table operations the pipeline is built from, over
 sequences of rows: selecting one group, `drop_duplicates`, `to_dict`,
 `groupby(...).agg(...)`, and `merge` with `how='left'` and `how='outer'`.

 A key column is given as a function from a row to its key. Row order is the
 order of the input sequences, where pandas sorts group keys and outer-merge
 keys. Later stages state their results for any order of the rows, except
 the order of products tied in profit, and so their class at a threshold,
 which is not determined.
 */
module Tables {
  import opened Optional

  /** The first component of a pair: the key column of a grouped table. */
  function Fst<K, V>(p: (K, V)): K {
    p.0
  }

  /** Some row of `rows` has key `k`. */
  predicate HasKey<T, K(==)>(rows: seq<T>, key: T -> K, k: K) {
    exists i | 0 <= i < |rows| :: key(rows[i]) == k
  }

  /** No two rows of `rows` share a key. */
  predicate UniqueKeys<T, K(==)>(rows: seq<T>, key: T -> K) {
    forall i, j | 0 <= i < j < |rows| :: key(rows[i]) != key(rows[j])
  }

  /** The rows whose key is `k`, in their original order: one group of a `groupby`. */
  function Select<T, K(==)>(rows: seq<T>, key: T -> K, k: K): (g: seq<T>)
    ensures |g| <= |rows|
  {
    if |rows| == 0 then []
    else
      var last := rows[|rows| - 1];
      Select(rows[..|rows| - 1], key, k) + (if key(last) == k then [last] else [])
  }

  /** A group holds exactly the rows with its key, and is empty only when no row has the key. */
  lemma {:induction false} SelectMembers<T(!new), K>(rows: seq<T>, key: T -> K, k: K)
    ensures forall r :: r in Select(rows, key, k) <==> r in rows && key(r) == k
    ensures |Select(rows, key, k)| > 0 <==> HasKey(rows, key, k)
  {
    if |rows| > 0 {
      var init := rows[..|rows| - 1];
      var last := rows[|rows| - 1];
      SelectMembers(init, key, k);
      assert rows == init + [last];
      assert forall r :: r in rows <==> r in init || r == last;
      if HasKey(rows, key, k) && key(last) != k {
        var i :| 0 <= i < |rows| && key(rows[i]) == k;
        assert i < |init| && key(init[i]) == k;
      }
    }
  }

  /** A group keeps each row with its key as many times as it occurs, and no other row. */
  lemma {:induction false} SelectMultiset<T(!new), K>(rows: seq<T>, key: T -> K, k: K)
    ensures forall r :: multiset(Select(rows, key, k))[r] == if key(r) == k then multiset(rows)[r] else 0
  {
    if |rows| > 0 {
      var init := rows[..|rows| - 1];
      var last := rows[|rows| - 1];
      SelectMultiset(init, key, k);
      assert rows == init + [last];
      assert multiset(rows) == multiset(init) + multiset{last};
    }
  }

  lemma {:induction false} SelectOfUnique<T(!new), K>(rows: seq<T>, key: T -> K, k: K)
    requires UniqueKeys(rows, key)
    ensures |Select(rows, key, k)| <= 1
  {
    if |rows| > 0 {
      var init := rows[..|rows| - 1];
      var last := rows[|rows| - 1];
      assert UniqueKeys(init, key);
      SelectOfUnique(init, key, k);
      SelectMembers(init, key, k);
      if key(last) == k {
        assert !HasKey(init, key, k) by {
          forall i | 0 <= i < |init| ensures key(init[i]) != k {
            assert key(rows[i]) != key(rows[|rows| - 1]);
          }
        }
      }
    }
  }

  /** `drop_duplicates`: the distinct elements of `xs`, each at its first occurrence. */
  function Distinct<T(==,!new)>(xs: seq<T>): (d: seq<T>)
    ensures forall x :: x in d <==> x in xs
    ensures forall i, j | 0 <= i < j < |d| :: d[i] != d[j]
  {
    if |xs| == 0 then []
    else
      var init := xs[..|xs| - 1];
      var last := xs[|xs| - 1];
      assert forall x :: x in xs <==> x in init || x == last;
      var d := Distinct(init);
      if last in d then d else d + [last]
  }

  /** The position of the first occurrence of `x` in `xs`. */
  function FirstIndex<T(==)>(xs: seq<T>, x: T): (i: nat)
    requires x in xs
    ensures i < |xs| && xs[i] == x
    ensures forall j | 0 <= j < i :: xs[j] != x
  {
    if xs[0] == x then 0 else 1 + FirstIndex(xs[1..], x)
  }

  /** A position holding `x` with no `x` before it is the first occurrence. */
  lemma FirstIndexAt<T>(xs: seq<T>, x: T, i: nat)
    requires i < |xs| && xs[i] == x
    requires forall j | 0 <= j < i :: xs[j] != x
    ensures FirstIndex(xs, x) == i
  {
  }

  /** Appending an element does not move the first occurrence of an element already present. */
  lemma FirstIndexAppend<T>(xs: seq<T>, y: T, x: T)
    requires x in xs
    ensures FirstIndex(xs + [y], x) == FirstIndex(xs, x)
  {
    var i := FirstIndex(xs, x);
    FirstIndexAt(xs + [y], x, i);
  }

  /**
   `drop_duplicates` keeps first-occurrence order: of two elements of the
   result, the earlier one occurs first in `xs` at an earlier position.
   */
  lemma {:induction false} DistinctOrder<T(!new)>(xs: seq<T>)
    ensures forall i, j | 0 <= i < j < |Distinct(xs)| ::
      FirstIndex(xs, Distinct(xs)[i]) < FirstIndex(xs, Distinct(xs)[j])
  {
    if |xs| > 0 {
      var init, last := xs[..|xs| - 1], xs[|xs| - 1];
      assert xs == init + [last];
      DistinctOrder(init);
      var d0, d := Distinct(init), Distinct(xs);
      forall i, j | 0 <= i < j < |d|
        ensures FirstIndex(xs, d[i]) < FirstIndex(xs, d[j])
      {
        assert d[i] == d0[i] && d[i] in init;
        FirstIndexAppend(init, last, d[i]);
        if j < |d0| {
          assert d[j] == d0[j] && d[j] in init;
          FirstIndexAppend(init, last, d[j]);
        } else {
          assert d[j] == last && last !in init;
          FirstIndexAt(xs, last, |init|);
        }
      }
    }
  }

  /** A sequence without repeats has as many elements as its set of elements. */
  lemma {:induction false} NoRepeatsCard<T>(xs: seq<T>)
    requires forall i, j | 0 <= i < j < |xs| :: xs[i] != xs[j]
    ensures |set x | x in xs| == |xs|
  {
    if |xs| > 0 {
      var init, last := xs[..|xs| - 1], xs[|xs| - 1];
      NoRepeatsCard(init);
      assert (set x | x in xs) == (set x | x in init) + {last};
      assert last !in (set x | x in init);
    }
  }

  /** `nunique`: `drop_duplicates` leaves one element per distinct value. */
  lemma DistinctCount<T(!new)>(xs: seq<T>)
    ensures |Distinct(xs)| == |set x | x in xs|
  {
    NoRepeatsCard(Distinct(xs));
    assert (set x | x in Distinct(xs)) == (set x | x in xs);
  }

  /** The value of the last pair in `pairs` with key `k`, if any. */
  function LastValue<K(==), V>(pairs: seq<(K, V)>, k: K): Option<V>
  {
    if |pairs| == 0 then None
    else if pairs[|pairs| - 1].0 == k then Some(pairs[|pairs| - 1].1)
    else LastValue(pairs[..|pairs| - 1], k)
  }

  /**
   `set_index(...).to_dict()`: a dictionary built from key/value pairs in
   order, where a later pair for a key overwrites an earlier one.
   */
  function ToDict<K(==,!new), V>(pairs: seq<(K, V)>): (m: map<K, V>)
    ensures forall k :: k in m <==> HasKey(pairs, Fst, k)
    ensures forall k | k in m :: (k, m[k]) in pairs
  {
    if |pairs| == 0 then map[]
    else
      var init := pairs[..|pairs| - 1];
      var last := pairs[|pairs| - 1];
      var m := ToDict(init);
      assert forall k :: HasKey(init, Fst, k) ==> HasKey(pairs, Fst, k);
      assert HasKey(pairs, Fst, last.0);
      assert forall k :: HasKey(pairs, Fst, k) ==> HasKey(init, Fst, k) || k == last.0;
      m[last.0 := last.1]
  }

  /** The dictionary holds, for every key, the value of the last pair with that key. */
  lemma {:induction false} ToDictLastWins<K(!new), V>(pairs: seq<(K, V)>, k: K)
    ensures k in ToDict(pairs) <==> LastValue(pairs, k).Some?
    ensures k in ToDict(pairs) ==> ToDict(pairs)[k] == LastValue(pairs, k).value
  {
    if |pairs| > 0 {
      ToDictLastWins(pairs[..|pairs| - 1], k);
    }
  }

  /** The last pair with key `k` sits at a position after which no pair has key `k`. */
  lemma {:induction false} LastValueAt<K, V>(pairs: seq<(K, V)>, k: K) returns (p: nat)
    requires LastValue(pairs, k).Some?
    ensures p < |pairs| && pairs[p] == (k, LastValue(pairs, k).value)
    ensures forall q | p < q < |pairs| :: pairs[q].0 != k
  {
    if pairs[|pairs| - 1].0 == k {
      p := |pairs| - 1;
    } else {
      p := LastValueAt(pairs[..|pairs| - 1], k);
    }
  }

  /**
   Among the pairs of `xs` with key `k`, `(k, v)` is the one whose first
   occurrence comes last: the pair `to_dict` keeps after `drop_duplicates`.
   */
  ghost predicate FirstSeenLast<K, V>(xs: seq<(K, V)>, k: K, v: V) {
    && (k, v) in xs
    && forall j | 0 <= j < |xs| && xs[j].0 == k :: FirstIndex(xs, xs[j]) <= FirstIndex(xs, (k, v))
  }

  /** At most one value is the first-seen-last one of a key. */
  lemma FirstSeenLastUnique<K, V>(xs: seq<(K, V)>, k: K, v: V, w: V)
    requires FirstSeenLast(xs, k, v) && FirstSeenLast(xs, k, w)
    ensures v == w
  {
    var i, j := FirstIndex(xs, (k, v)), FirstIndex(xs, (k, w));
    assert FirstIndex(xs, xs[i]) <= j;
    assert FirstIndex(xs, xs[j]) <= i;
  }

  /**
   `drop_duplicates().to_dict()`: each key maps to the value of its pair whose
   first occurrence comes last, since the deduplicated pairs keep
   first-occurrence order and the dictionary keeps the last of them.
   */
  lemma DistinctToDict<K(!new), V(!new)>(xs: seq<(K, V)>, k: K)
    requires k in ToDict(Distinct(xs))
    ensures FirstSeenLast(xs, k, ToDict(Distinct(xs))[k])
  {
    var d := Distinct(xs);
    ToDictLastWins(d, k);
    var v := ToDict(d)[k];
    var p := LastValueAt(d, k);
    assert d[p] in d;
    forall j | 0 <= j < |xs| && xs[j].0 == k
      ensures FirstIndex(xs, xs[j]) <= FirstIndex(xs, (k, v))
    {
      DistinctBefore(xs, p, j);
    }
  }

  /** An element of `xs` whose key is not repeated after position `p` of the deduplicated pairs first occurs no later than `Distinct(xs)[p]`. */
  lemma DistinctBefore<K(!new), V(!new)>(xs: seq<(K, V)>, p: nat, j: nat)
    requires p < |Distinct(xs)| && j < |xs|
    requires xs[j].0 == Distinct(xs)[p].0
    requires forall q | p < q < |Distinct(xs)| :: Distinct(xs)[q].0 != Distinct(xs)[p].0
    ensures FirstIndex(xs, xs[j]) <= FirstIndex(xs, Distinct(xs)[p])
  {
    var d := Distinct(xs);
    assert xs[j] in d;
    var q :| 0 <= q < |d| && d[q] == xs[j];
    DistinctOrder(xs);
    assert q <= p;
  }

  /**
   `groupby(key).agg(agg)`: one row per distinct key of `rows`, pairing the key
   with the aggregate of the rows that have it.
   */
  function GroupBy<T(!new), K(==,!new), V>(rows: seq<T>, key: T -> K, agg: seq<T> -> V): (table: seq<(K, V)>)
    ensures UniqueKeys(table, Fst)
    ensures forall k :: HasKey(table, Fst, k) <==> HasKey(rows, key, k)
    ensures forall e | e in table :: e.1 == agg(Select(rows, key, e.0))
  {
    var column := seq(|rows|, i requires 0 <= i < |rows| => key(rows[i]));
    var ks := Distinct(column);
    var table := seq(|ks|, i requires 0 <= i < |ks| => (ks[i], agg(Select(rows, key, ks[i]))));
    GroupKeys(rows, key, column, ks, table);
    table
  }

  lemma GroupKeys<T, K(!new), V>(rows: seq<T>, key: T -> K, column: seq<K>, ks: seq<K>, table: seq<(K, V)>)
    requires |column| == |rows| && forall i | 0 <= i < |rows| :: column[i] == key(rows[i])
    requires forall k :: k in ks <==> k in column
    requires |table| == |ks| && forall i | 0 <= i < |ks| :: table[i].0 == ks[i]
    ensures forall k :: HasKey(table, Fst, k) <==> HasKey(rows, key, k)
  {
    forall k
      ensures HasKey(table, Fst, k) <==> HasKey(rows, key, k)
    {
      if HasKey(table, Fst, k) {
        var i :| 0 <= i < |table| && Fst(table[i]) == k;
        assert ks[i] in column;
        var j :| 0 <= j < |column| && column[j] == k;
        assert key(rows[j]) == k;
      }
      if HasKey(rows, key, k) {
        var j :| 0 <= j < |rows| && key(rows[j]) == k;
        assert column[j] == k;
        assert k in ks;
        var i :| 0 <= i < |ks| && ks[i] == k;
        assert Fst(table[i]) == k;
      }
    }
  }

  /** Two tables with the same key column, row by row, have the same keys, and unique keys together. */
  lemma SameKeys<A, B, K>(xs: seq<A>, ys: seq<B>, kx: A -> K, ky: B -> K)
    requires |xs| == |ys|
    requires forall j | 0 <= j < |xs| :: kx(xs[j]) == ky(ys[j])
    ensures UniqueKeys(xs, kx) <==> UniqueKeys(ys, ky)
    ensures forall k :: HasKey(xs, kx, k) <==> HasKey(ys, ky, k)
  {
    forall k ensures HasKey(xs, kx, k) <==> HasKey(ys, ky, k) {
      if HasKey(ys, ky, k) {
        var j :| 0 <= j < |ys| && ky(ys[j]) == k;
        assert kx(xs[j]) == k;
      }
    }
  }

  /** The only row of a unique-key table with key `k`, if any. */
  function Find<T(!new), K(==)>(rows: seq<T>, key: T -> K, k: K): (r: Option<T>)
    ensures r.Some? <==> HasKey(rows, key, k)
    ensures r.Some? ==> r.value in rows && key(r.value) == k
  {
    var g := Select(rows, key, k);
    SelectMembers(rows, key, k);
    if |g| == 0 then None else Some(g[0])
  }

  /** Looking a key up in a grouped table yields the aggregate of that key's group, or nothing. */
  lemma GroupByFind<T(!new), K(!new), V(!new)>(rows: seq<T>, key: T -> K, agg: seq<T> -> V, k: K)
    ensures Find(GroupBy(rows, key, agg), Fst, k)
         == if HasKey(rows, key, k) then Some((k, agg(Select(rows, key, k)))) else None
  {
    var table := GroupBy(rows, key, agg);
    SelectOfUnique(table, Fst, k);
    SelectMembers(table, Fst, k);
  }

  /** The rows a left row `l` contributes to a left merge, given its matches `ms`. */
  function Pair<L, R>(l: L, ms: seq<R>): (out: seq<(L, Option<R>)>)
    ensures |out| == if |ms| == 0 then 1 else |ms|
  {
    if |ms| == 0 then [(l, None)]
    else seq(|ms|, i requires 0 <= i < |ms| => (l, Some(ms[i])))
  }

  /**
   `merge(how='left')`: every left row, in order, paired with each right row
   of the same key in right-table order, or with None when no right row has
   that key. A left row with several matches appears once per match.
   */
  function LeftJoin<L(!new), R(!new), K(==)>(ls: seq<L>, rs: seq<R>, lkey: L -> K, rkey: R -> K): (out: seq<(L, Option<R>)>)
    ensures |out| >= |ls|
  {
    if |ls| == 0 then []
    else
      var l := ls[|ls| - 1];
      LeftJoin(ls[..|ls| - 1], rs, lkey, rkey) + Pair(l, Select(rs, rkey, lkey(l)))
  }

  /**
   Every row of a left merge pairs a left row with a right row of the same
   key, or with None when no right row has that key.
   */
  lemma {:induction false} LeftJoinSound<L(!new), R(!new), K>(ls: seq<L>, rs: seq<R>, lkey: L -> K, rkey: R -> K)
    ensures forall o | o in LeftJoin(ls, rs, lkey, rkey) :: o.0 in ls
    ensures forall o | o in LeftJoin(ls, rs, lkey, rkey) && o.1.Some? :: o.1.value in rs && rkey(o.1.value) == lkey(o.0)
    ensures forall o | o in LeftJoin(ls, rs, lkey, rkey) && o.1.None? :: !HasKey(rs, rkey, lkey(o.0))
  {
    if |ls| > 0 {
      var init := ls[..|ls| - 1];
      var l := ls[|ls| - 1];
      var ms := Select(rs, rkey, lkey(l));
      SelectMembers(rs, rkey, lkey(l));
      LeftJoinSound(init, rs, lkey, rkey);
      var out := LeftJoin(ls, rs, lkey, rkey);
      assert out == LeftJoin(init, rs, lkey, rkey) + Pair(l, ms);
      assert forall x | x in init :: x in ls;
      forall o | o in Pair(l, ms)
        ensures o.0 == l
        ensures o.1.Some? ==> o.1.value in rs && rkey(o.1.value) == lkey(l)
        ensures o.1.None? ==> !HasKey(rs, rkey, lkey(l))
      {
        var m :| 0 <= m < |Pair(l, ms)| && Pair(l, ms)[m] == o;
        if |ms| > 0 {
          assert ms[m] in ms;
        }
      }
    }
  }

  lemma ConcatAssoc<T>(x: seq<T>, y: seq<T>, z: seq<T>)
    ensures (x + y) + z == x + (y + z)
  {
  }

  lemma IndexLeft<T>(a: seq<T>, b: seq<T>, j: nat)
    requires j < |a|
    ensures (a + b)[j] == a[j]
  {
  }

  lemma IndexRight<T>(a: seq<T>, b: seq<T>, m: nat)
    requires m < |b|
    ensures (a + b)[|a| + m] == b[m]
  {
  }

  /** Appending a left row appends its block of merged rows. */
  lemma LeftJoinSnoc<L(!new), R(!new), K>(ls: seq<L>, l: L, rs: seq<R>, lkey: L -> K, rkey: R -> K)
    ensures LeftJoin(ls + [l], rs, lkey, rkey) == LeftJoin(ls, rs, lkey, rkey) + Pair(l, Select(rs, rkey, lkey(l)))
  {
    assert (ls + [l])[..|ls|] == ls;
  }

  /** A left merge of a concatenation is the concatenation of the left merges. */
  lemma {:induction false} LeftJoinAppend<L(!new), R(!new), K>(a: seq<L>, b: seq<L>, rs: seq<R>, lkey: L -> K, rkey: R -> K)
    ensures LeftJoin(a + b, rs, lkey, rkey) == LeftJoin(a, rs, lkey, rkey) + LeftJoin(b, rs, lkey, rkey)
  {
    if |b| == 0 {
      assert a + b == a;
      assert LeftJoin(b, rs, lkey, rkey) == [];
    } else {
      var init, l := b[..|b| - 1], b[|b| - 1];
      assert a + b == (a + init) + [l];
      assert b == init + [l];
      LeftJoinSnoc(a + init, l, rs, lkey, rkey);
      LeftJoinSnoc(init, l, rs, lkey, rkey);
      LeftJoinAppend(a, init, rs, lkey, rkey);
      var x, y, p := LeftJoin(a, rs, lkey, rkey), LeftJoin(init, rs, lkey, rkey), Pair(l, Select(rs, rkey, lkey(l)));
      ConcatAssoc(x, y, p);
    }
  }

  /** The rows of a left merge contributed by `ls[i]` sit between those of the rows before and after it. */
  lemma LeftJoinAt<L(!new), R(!new), K>(ls: seq<L>, rs: seq<R>, lkey: L -> K, rkey: R -> K, i: nat)
    requires i < |ls|
    ensures LeftJoin(ls, rs, lkey, rkey)
         == LeftJoin(ls[..i], rs, lkey, rkey) + Pair(ls[i], Select(rs, rkey, lkey(ls[i]))) + LeftJoin(ls[i + 1..], rs, lkey, rkey)
  {
    assert ls == ls[..i] + [ls[i]] + ls[i + 1..];
    LeftJoinAppend(ls[..i] + [ls[i]], ls[i + 1..], rs, lkey, rkey);
    LeftJoinAppend(ls[..i], [ls[i]], rs, lkey, rkey);
    assert [ls[i]][..0] == [];
  }

  /** Some row of the merge `out` carries the left row `l`. */
  ghost predicate KeepsLeft<L, R>(out: seq<(L, Option<R>)>, l: L) {
    exists j | 0 <= j < |out| :: out[j].0 == l
  }

  /** Some row of the merge `out` pairs `l` with `r`. */
  ghost predicate KeepsPair<L, R>(out: seq<(L, Option<R>)>, l: L, r: R) {
    exists j | 0 <= j < |out| :: out[j] == (l, Some(r))
  }

  /** The row `ls[i]` appears in a left merge, at the start of its block. */
  lemma LeftJoinKeepsRow<L(!new), R(!new), K>(ls: seq<L>, rs: seq<R>, lkey: L -> K, rkey: R -> K, i: nat)
    requires i < |ls|
    ensures KeepsLeft(LeftJoin(ls, rs, lkey, rkey), ls[i])
  {
    LeftJoinAt(ls, rs, lkey, rkey, i);
    var before := LeftJoin(ls[..i], rs, lkey, rkey);
    var block := Pair(ls[i], Select(rs, rkey, lkey(ls[i])));
    IndexLeft(before + block, LeftJoin(ls[i + 1..], rs, lkey, rkey), |before|);
    IndexRight(before, block, 0);
  }

  /** The row `ls[i]` is paired, in a left merge, with the right row `rs[k]` of the same key. */
  lemma LeftJoinKeepsMatch<L(!new), R(!new), K>(ls: seq<L>, rs: seq<R>, lkey: L -> K, rkey: R -> K, i: nat, k: nat)
    requires i < |ls| && k < |rs| && rkey(rs[k]) == lkey(ls[i])
    ensures KeepsPair(LeftJoin(ls, rs, lkey, rkey), ls[i], rs[k])
  {
    LeftJoinAt(ls, rs, lkey, rkey, i);
    var before := LeftJoin(ls[..i], rs, lkey, rkey);
    var ms := Select(rs, rkey, lkey(ls[i]));
    var block := Pair(ls[i], ms);
    SelectMembers(rs, rkey, lkey(ls[i]));
    assert rs[k] in ms;
    var m :| 0 <= m < |ms| && ms[m] == rs[k];
    assert block[m] == (ls[i], Some(rs[k]));
    IndexLeft(before + block, LeftJoin(ls[i + 1..], rs, lkey, rkey), |before| + m);
    IndexRight(before, block, m);
  }

  /** A left merge keeps every left row, and pairs it with each right row of the same key. */
  lemma LeftJoinKeepsRows<L(!new), R(!new), K>(ls: seq<L>, rs: seq<R>, lkey: L -> K, rkey: R -> K)
    ensures forall i | 0 <= i < |ls| :: KeepsLeft(LeftJoin(ls, rs, lkey, rkey), ls[i])
    ensures forall i, k | 0 <= i < |ls| && 0 <= k < |rs| && rkey(rs[k]) == lkey(ls[i]) ::
      KeepsPair(LeftJoin(ls, rs, lkey, rkey), ls[i], rs[k])
  {
    forall i | 0 <= i < |ls| {
      LeftJoinKeepsRow(ls, rs, lkey, rkey, i);
    }
    forall i, k | 0 <= i < |ls| && 0 <= k < |rs| && rkey(rs[k]) == lkey(ls[i]) {
      LeftJoinKeepsMatch(ls, rs, lkey, rkey, i, k);
    }
  }

  /** Each left row paired with its only match in `rs`, or None. */
  function LookupJoin<L, R(!new), K(==)>(ls: seq<L>, rs: seq<R>, lkey: L -> K, rkey: R -> K): (out: seq<(L, Option<R>)>)
    ensures |out| == |ls|
    ensures forall i | 0 <= i < |ls| :: out[i] == (ls[i], Find(rs, rkey, lkey(ls[i])))
  {
    if |ls| == 0 then []
    else
      var l := ls[|ls| - 1];
      LookupJoin(ls[..|ls| - 1], rs, lkey, rkey) + [(l, Find(rs, rkey, lkey(l)))]
  }

  /**
   A left merge against a table with unique keys is a lookup: one output row
   per left row, in order, carrying the left row's match or None.
   */
  lemma {:induction false} LeftJoinOneToOne<L(!new), R(!new), K>(ls: seq<L>, rs: seq<R>, lkey: L -> K, rkey: R -> K)
    requires UniqueKeys(rs, rkey)
    ensures LeftJoin(ls, rs, lkey, rkey) == LookupJoin(ls, rs, lkey, rkey)
  {
    if |ls| > 0 {
      var init := ls[..|ls| - 1];
      var l := ls[|ls| - 1];
      LeftJoinOneToOne(init, rs, lkey, rkey);
      SelectOfUnique(rs, rkey, lkey(l));
      assert Pair(l, Select(rs, rkey, lkey(l))) == [(l, Find(rs, rkey, lkey(l)))];
    }
  }

  /** Left-merge rows lifted to outer-merge rows. */
  function LiftLeft<L, R>(rows: seq<(L, Option<R>)>): (out: seq<(Option<L>, Option<R>)>)
    ensures |out| == |rows|
    ensures forall i | 0 <= i < |rows| :: out[i] == (Some(rows[i].0), rows[i].1)
  {
    seq(|rows|, i requires 0 <= i < |rows| => (Some(rows[i].0), rows[i].1))
  }

  /** The right rows whose key no left row has, as outer-merge rows. */
  function RightOnly<L(!new), R(!new), K(==)>(ls: seq<L>, rs: seq<R>, lkey: L -> K, rkey: R -> K): (out: seq<(Option<L>, Option<R>)>)
    ensures forall o | o in out :: o.0.None? && o.1.Some? && o.1.value in rs && !HasKey(ls, lkey, rkey(o.1.value))
    ensures forall r | r in rs && !HasKey(ls, lkey, rkey(r)) :: (None, Some(r)) in out
  {
    if |rs| == 0 then []
    else
      var init := rs[..|rs| - 1];
      var r := rs[|rs| - 1];
      assert forall x :: x in rs <==> x in init || x == r;
      RightOnly(ls, init, lkey, rkey) + (if HasKey(ls, lkey, rkey(r)) then [] else [(None, Some(r))])
  }

  /**
   `merge(how='outer')`: the left merge, followed by the right rows that
   matched no left row, paired with None on the left.
   */
  function OuterJoin<L(!new), R(!new), K(==)>(ls: seq<L>, rs: seq<R>, lkey: L -> K, rkey: R -> K): (out: seq<(Option<L>, Option<R>)>)
    ensures forall o | o in out :: o.0.Some? || o.1.Some?
    ensures forall o | o in out && o.0.Some? :: o.0.value in ls
    ensures forall o | o in out && o.1.Some? :: o.1.value in rs
    ensures forall o | o in out && o.0.Some? && o.1.Some? :: lkey(o.0.value) == rkey(o.1.value)
    ensures forall o | o in out && o.0.Some? && o.1.None? :: !HasKey(rs, rkey, lkey(o.0.value))
    ensures forall o | o in out && o.0.None? :: !HasKey(ls, lkey, rkey(o.1.value))
  {
    var left := LeftJoin(ls, rs, lkey, rkey);
    var lifted := LiftLeft(left);
    LeftJoinSound(ls, rs, lkey, rkey);
    forall o | o in lifted
      ensures o.0.Some? && o.0.value in ls
      ensures o.1.Some? ==> o.1.value in rs && lkey(o.0.value) == rkey(o.1.value)
      ensures o.1.None? ==> !HasKey(rs, rkey, lkey(o.0.value))
    {
      var i :| 0 <= i < |lifted| && lifted[i] == o;
      assert left[i] in left;
    }
    lifted + RightOnly(ls, rs, lkey, rkey)
  }

  /** Some row of the outer merge `out` carries `side`. */
  ghost predicate KeepsLeftSide<L, R>(out: seq<(Option<L>, Option<R>)>, side: L) {
    exists j | 0 <= j < |out| :: out[j].0 == Some(side)
  }

  ghost predicate KeepsRightSide<L, R>(out: seq<(Option<L>, Option<R>)>, side: R) {
    exists j | 0 <= j < |out| :: out[j].1 == Some(side)
  }

  lemma OuterJoinKeepsLeft<L(!new), R(!new), K>(ls: seq<L>, rs: seq<R>, lkey: L -> K, rkey: R -> K, i: nat)
    requires i < |ls|
    ensures KeepsLeftSide(OuterJoin(ls, rs, lkey, rkey), ls[i])
  {
    var left := LeftJoin(ls, rs, lkey, rkey);
    assert OuterJoin(ls, rs, lkey, rkey) == LiftLeft(left) + RightOnly(ls, rs, lkey, rkey);
    LeftJoinKeepsRow(ls, rs, lkey, rkey, i);
    var j :| 0 <= j < |left| && left[j].0 == ls[i];
    assert OuterJoin(ls, rs, lkey, rkey)[j] == LiftLeft(left)[j];
  }

  lemma OuterJoinKeepsRight<L(!new), R(!new), K>(ls: seq<L>, rs: seq<R>, lkey: L -> K, rkey: R -> K, k: nat)
    requires k < |rs|
    ensures KeepsRightSide(OuterJoin(ls, rs, lkey, rkey), rs[k])
  {
    var left := LeftJoin(ls, rs, lkey, rkey);
    var right := RightOnly(ls, rs, lkey, rkey);
    assert OuterJoin(ls, rs, lkey, rkey) == LiftLeft(left) + right;
    if HasKey(ls, lkey, rkey(rs[k])) {
      var i :| 0 <= i < |ls| && lkey(ls[i]) == rkey(rs[k]);
      LeftJoinKeepsMatch(ls, rs, lkey, rkey, i, k);
      var j :| 0 <= j < |left| && left[j] == (ls[i], Some(rs[k]));
      IndexLeft(LiftLeft(left), right, j);
    } else {
      assert (None, Some(rs[k])) in right;
      var m :| 0 <= m < |right| && right[m] == (None, Some(rs[k]));
      IndexRight(LiftLeft(left), right, m);
    }
  }

  /** Every row of either side appears in the outer merge. */
  lemma OuterJoinKeepsRows<L(!new), R(!new), K>(ls: seq<L>, rs: seq<R>, lkey: L -> K, rkey: R -> K)
    ensures forall i | 0 <= i < |ls| :: KeepsLeftSide(OuterJoin(ls, rs, lkey, rkey), ls[i])
    ensures forall k | 0 <= k < |rs| :: KeepsRightSide(OuterJoin(ls, rs, lkey, rkey), rs[k])
  {
    forall i | 0 <= i < |ls| {
      OuterJoinKeepsLeft(ls, rs, lkey, rkey, i);
    }
    forall k | 0 <= k < |rs| {
      OuterJoinKeepsRight(ls, rs, lkey, rkey, k);
    }
  }

  /** A sequence whose elements have distinct keys holds each element at most once. */
  lemma {:induction false} UniqueKeysOnce<T(!new), K>(xs: seq<T>, key: T -> K)
    requires UniqueKeys(xs, key)
    ensures forall e :: multiset(xs)[e] <= 1
  {
    if |xs| > 0 {
      var init, last := xs[..|xs| - 1], xs[|xs| - 1];
      assert xs == init + [last];
      assert UniqueKeys(init, key);
      UniqueKeysOnce(init, key);
      assert last !in init by {
        forall m | 0 <= m < |init| ensures init[m] != last {
          assert key(xs[m]) != key(xs[|xs| - 1]);
        }
      }
    }
  }

  /** A sequence holding each element at most once has no repeated element. */
  lemma NoRepeats<T>(ys: seq<T>)
    requires forall e :: multiset(ys)[e] <= 1
    ensures forall i, j | 0 <= i < j < |ys| :: ys[i] != ys[j]
  {
    forall i, j | 0 <= i < j < |ys| ensures ys[i] != ys[j] {
      var e := ys[j];
      assert ys == ys[..j] + [e] + ys[j + 1..];
      assert multiset(ys)[e] == multiset(ys[..j])[e] + 1 + multiset(ys[j + 1..])[e];
      assert multiset(ys)[e] <= 1;
      assert ys[i] in multiset(ys[..j]) by {
        assert ys[..j][i] == ys[i];
      }
    }
  }

  /** Reordering rows keeps their keys distinct. */
  lemma UniqueKeysPermutation<T(!new), K>(xs: seq<T>, ys: seq<T>, key: T -> K)
    requires UniqueKeys(xs, key) && multiset(xs) == multiset(ys)
    ensures UniqueKeys(ys, key)
  {
    UniqueKeysOnce(xs, key);
    NoRepeats(ys);
    forall i, j | 0 <= i < j < |ys| ensures key(ys[i]) != key(ys[j]) {
      assert ys[i] in multiset(xs) && ys[j] in multiset(xs);
      var a :| 0 <= a < |xs| && xs[a] == ys[i];
      var b :| 0 <= b < |xs| && xs[b] == ys[j];
      assert ys[i] != ys[j];
      if a < b {
        assert key(xs[a]) != key(xs[b]);
      } else {
        assert key(xs[b]) != key(xs[a]);
      }
    }
  }
}

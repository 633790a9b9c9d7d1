/**
  Keyed tables as the system uses them: a Python dict (insertion-ordered, `d[k] = v`
  overwrites in place, `del d[k]` keeps the order of the rest) and a database table read
  through `filter_by(...).first()` / `.all()`. Both are a sequence of keys in insertion order
  plus the key-to-row mapping.
*/
module Tables {
  import opened Common

  ghost predicate Distinct<K>(s: seq<K>)
  {
    forall i, j :: 0 <= i < j < |s| ==> s[i] != s[j]
  }

  datatype Table<K(==,!new), V(!new)> = Table(order: seq<K>, rows: map<K, V>) {

    /** Every key occurs once in the order, and the order lists exactly the mapped keys. */
    ghost predicate Valid()
    {
      Distinct(order) && (forall k :: k in rows <==> k in order)
    }

    /** len(d) */
    function Size(): nat
    {
      |order|
    }

    /** d.get(k) */
    function Get(k: K): (r: Option<V>)
      ensures r.Some? <==> k in rows
      ensures r.Some? ==> r.value == rows[k]
    {
      if k in rows then Some(rows[k]) else None
    }

    /** d.values(), in insertion order */
    function Values(): (vs: seq<V>)
      requires Valid()
      ensures |vs| == |order|
      ensures forall i :: 0 <= i < |order| ==> vs[i] == rows[order[i]]
    {
      seq(|order|, i requires 0 <= i < |order| => rows[order[i]])
    }

    /** d[k] = v: a new key goes last; an existing key keeps its place and gets the new row. */
    function Put(k: K, v: V): (t: Table<K, V>)
      requires Valid()
      ensures t.Valid()
      ensures t.rows == rows[k := v]
      ensures t.Get(k) == Some(v)
      ensures forall k' :: k' != k ==> t.Get(k') == Get(k')
      ensures k in rows ==> t.order == order
      ensures k !in rows ==> t.order == order + [k]
    {
      Table(if k in rows then order else order + [k], rows[k := v])
    }

    /** del d[k] */
    function Remove(k: K): (t: Table<K, V>)
      requires Valid()
      ensures t.Valid()
      ensures t.rows == rows - {k}
      ensures t.Get(k) == None
      ensures forall k' :: k' != k ==> t.Get(k') == Get(k')
      ensures forall k' :: k' in t.order <==> k' in order && k' != k
      ensures k !in rows ==> t.order == order
      ensures forall i :: 0 <= i < |order| && order[i] == k ==> t.order == order[..i] + order[i + 1..]
    {
      assert forall i :: 0 <= i < |order| && order[i] == k ==> Without(order, k) == order[..i] + order[i + 1..] by {
        forall i | 0 <= i < |order| && order[i] == k {
          WithoutAt(order, k, i);
        }
      }
      Table(Without(order, k), rows - {k})
    }
  }

  /** The values listed in insertion order are exactly the rows of the mapping. */
  lemma ValuesAreRows<K(!new), V(!new)>(t: Table<K, V>)
    requires t.Valid()
    ensures forall v :: v in t.Values() <==> v in t.rows.Values
  {
    var vs := t.Values();
    forall v | v in t.rows.Values
      ensures v in vs
    {
      var k :| k in t.rows && t.rows[k] == v;
      var i :| 0 <= i < |t.order| && t.order[i] == k;
      assert vs[i] == v;
    }
  }

  /** A value listed by Values() is the row of some key. */
  lemma KeyOfValue<K(!new), V(!new)>(t: Table<K, V>, v: V) returns (k: K)
    requires t.Valid() && v in t.Values()
    ensures k in t.rows && t.rows[k] == v
  {
    var i :| 0 <= i < |t.order| && t.Values()[i] == v;
    k := t.order[i];
    assert k in t.order;
  }

  /**
    When at most one row satisfies p, the first match in insertion order is that row: a
    lookup by a unique column finds the row that has the value, whatever the order.
  */
  lemma FirstOfUnique<K(!new), V(!new)>(t: Table<K, V>, p: V -> bool, k: K)
    requires t.Valid()
    requires forall a, b :: a in t.rows && b in t.rows && p(t.rows[a]) && p(t.rows[b]) ==> a == b
    requires k in t.rows && p(t.rows[k])
    ensures First(t.Values(), p) == Some(t.rows[k])
  {
    var vs := t.Values();
    var i :| 0 <= i < |t.order| && t.order[i] == k;
    assert p(vs[i]);
    var r := First(vs, p);
    var j :| 0 <= j < |vs| && vs[j] == r.value;
    assert t.rows[t.order[j]] == r.value;
  }

  /** A sequence without repetitions has as many distinct elements as it has positions. */
  lemma {:induction false} DistinctCount<K>(s: seq<K>)
    requires Distinct(s)
    ensures |set x | x in s| == |s|
  {
    if s != [] {
      var n := |s| - 1;
      assert Distinct(s[..n]);
      DistinctCount(s[..n]);
      assert (set x | x in s) == (set x | x in s[..n]) + {s[n]};
      assert s[n] !in (set x | x in s[..n]);
    }
  }

  /** len(d) counts the keys: the insertion order lists each of them once. */
  lemma SizeIsKeyCount<K(!new), V(!new)>(t: Table<K, V>)
    requires t.Valid()
    ensures t.Size() == |t.rows|
  {
    assert t.rows.Keys == set x | x in t.order;
    DistinctCount(t.order);
  }

  /** No two rows agree on column col: a `unique=True` column or a UniqueConstraint. */
  ghost predicate Unique<K(!new), V(!new), C>(t: Table<K, V>, col: V -> C)
  {
    forall a, b :: a in t.rows && b in t.rows && col(t.rows[a]) == col(t.rows[b]) ==> a == b
  }

  /** Some row holds c in column col: `query.filter_by(col=c).first()` is not None. */
  ghost predicate Has<K(!new), V(!new), C>(t: Table<K, V>, col: V -> C, c: C)
  {
    exists k :: k in t.rows && col(t.rows[k]) == c
  }

  /** Inserting a row under a new key whose column value no row holds keeps the column unique. */
  lemma PutKeepsUnique<K(!new), V(!new), C>(t: Table<K, V>, col: V -> C, k: K, v: V)
    requires t.Valid() && Unique(t, col) && k !in t.rows && !Has(t, col, col(v))
    ensures Unique(t.Put(k, v), col)
    ensures Has(t.Put(k, v), col, col(v))
  {
    assert t.Put(k, v).rows[k] == v;
  }

  /** A row found under another key is still there after an insert under a new key. */
  lemma PutKeepsHas<K(!new), V(!new), C>(t: Table<K, V>, col: V -> C, k: K, v: V, c: C)
    requires t.Valid() && k !in t.rows && Has(t, col, c)
    ensures Has(t.Put(k, v), col, c)
  {
    var j :| j in t.rows && col(t.rows[j]) == c;
    assert t.Put(k, v).rows[j] == t.rows[j];
  }

  /** Deleting a row keeps a unique column unique. */
  lemma RemoveKeepsUnique<K(!new), V(!new), C>(t: Table<K, V>, col: V -> C, k: K)
    requires t.Valid() && Unique(t, col)
    ensures Unique(t.Remove(k), col)
  {
  }

  /** Deleting a row whose column is not c keeps c present. */
  lemma RemoveKeepsHas<K(!new), V(!new), C>(t: Table<K, V>, col: V -> C, k: K, c: C)
    requires t.Valid() && Has(t, col, c) && (k in t.rows ==> col(t.rows[k]) != c)
    ensures Has(t.Remove(k), col, c)
  {
    var j :| j in t.rows && col(t.rows[j]) == c;
    assert t.Remove(k).rows[j] == t.rows[j];
  }

  /** `query.filter_by(col=c).first() is not None`, run as the lookup loop. */
  method HasValue<K(==,!new), V(!new), C(==)>(t: Table<K, V>, col: V -> C, c: C) returns (b: bool)
    requires t.Valid()
    ensures b <==> Has(t, col, c)
  {
    var r := FindFirst(t, (v: V) => col(v) == c);
    b := r.Some?;
  }

  function Empty<K(==,!new), V(!new)>(): (t: Table<K, V>)
    ensures t.Valid() && t.Size() == 0 && t.rows == map[]
  {
    Table([], map[])
  }

  /** s with every occurrence of k dropped, the rest in their original order. */
  function Without<K(==,!new)>(s: seq<K>, k: K): (r: seq<K>)
    ensures forall x :: x in r <==> x in s && x != k
    ensures Distinct(s) ==> Distinct(r)
    ensures k !in s ==> r == s
  {
    if s == [] then []
    else
      var rest := Without(s[1..], k);
      assert Distinct(s) ==> s[0] !in s[1..];
      assert k !in s ==> s == [s[0]] + s[1..];
      if s[0] == k then rest else [s[0]] + rest
  }

  /** Dropping the element at position i of a sequence without repetitions leaves the rest in order. */
  lemma {:induction false} WithoutAt<K(!new)>(s: seq<K>, k: K, i: nat)
    requires Distinct(s) && i < |s| && s[i] == k
    ensures Without(s, k) == s[..i] + s[i + 1..]
  {
    assert s == [s[0]] + s[1..];
    if i == 0 {
      assert k !in s[1..];
    } else {
      WithoutAt(s[1..], k, i - 1);
      assert s[..i] == [s[0]] + s[1..][..i - 1];
      assert s[i + 1..] == s[1..][i..];
    }
  }

  /**
    The position of the first element of vs that satisfies p, or |vs| when none does:
    where the early-return loop `for x in vs: if p(x): return x` stops.
  */
  function FirstIndex<V>(vs: seq<V>, p: V -> bool): (i: nat)
    ensures i <= |vs|
    ensures forall j :: 0 <= j < i ==> !p(vs[j])
    ensures i < |vs| ==> p(vs[i])
  {
    if vs == [] then 0
    else if p(vs[0]) then 0
    else 1 + FirstIndex(vs[1..], p)
  }

  /** `next((x for x in vs if p(x)), None)`: the first match, or None. */
  function First<V>(vs: seq<V>, p: V -> bool): (r: Option<V>)
    ensures r.None? <==> forall i :: 0 <= i < |vs| ==> !p(vs[i])
    ensures r.Some? ==> p(r.value) && r.value in vs
  {
    var i := FirstIndex(vs, p);
    if i < |vs| then Some(vs[i]) else None
  }

  /** `[x for x in vs if p(x)]` */
  function Where<V(!new)>(vs: seq<V>, p: V -> bool): (r: seq<V>)
    ensures |r| <= |vs|
    ensures forall v :: v in r <==> v in vs && p(v)
  {
    if vs == [] then []
    else
      var init := Where(vs[..|vs| - 1], p);
      assert vs == vs[..|vs| - 1] + [vs[|vs| - 1]];
      if p(vs[|vs| - 1]) then init + [vs[|vs| - 1]] else init
  }

  /**
    The loop `for x in vs: y = f(x); if y is not None: out.append(y)`: one output per input
    that f accepts, in input order.
  */
  function Collect<V(!new), W(!new)>(vs: seq<V>, f: V -> Option<W>): (r: seq<W>)
    ensures |r| <= |vs|
    ensures forall v :: v in vs && f(v).Some? ==> f(v).value in r
    ensures forall w :: w in r ==> exists v :: v in vs && f(v) == Some(w)
    ensures |r| == |Where(vs, Defined(f))|
  {
    if vs == [] then []
    else
      var init := Collect(vs[..|vs| - 1], f);
      assert vs == vs[..|vs| - 1] + [vs[|vs| - 1]];
      var last := vs[|vs| - 1];
      if f(last).Some? then init + [f(last).value] else init
  }

  /** The filter that keeps exactly the inputs f accepts. */
  function Defined<V, W>(f: V -> Option<W>): V -> bool
  {
    (v: V) => f(v).Some?
  }

  /** Both filters at once: `p(x) and q(x)`. */
  function Both<V>(p: V -> bool, q: V -> bool): V -> bool
  {
    (v: V) => p(v) && q(v)
  }

  /**
    Filtering keeps the input order: the matches in a prefix come first, then the matches in
    the rest, so the result is the matching elements read left to right.
  */
  lemma {:induction false} WhereAppend<V(!new)>(a: seq<V>, b: seq<V>, p: V -> bool)
    ensures Where(a + b, p) == Where(a, p) + Where(b, p)
  {
    if b == [] {
      assert a + b == a;
    } else {
      var n := |b| - 1;
      var ab := a + b;
      var tail := if p(b[n]) then [b[n]] else [];
      WhereAppend(a, b[..n], p);
      assert Where(ab, p) == Where(a + b[..n], p) + tail by {
        assert ab[..|ab| - 1] == a + b[..n];
        assert ab[|ab| - 1] == b[n];
      }
    }
  }

  /** Each match occurs in the result as often as in the input, and nothing else occurs. */
  lemma {:induction false} WhereCounts<V(!new)>(vs: seq<V>, p: V -> bool)
    ensures forall v :: multiset(Where(vs, p))[v] == if p(v) then multiset(vs)[v] else 0
  {
    if vs != [] {
      var n := |vs| - 1;
      WhereCounts(vs[..n], p);
      assert vs == vs[..n] + [vs[n]];
    }
  }

  /** Collect keeps the input order in the same way. */
  lemma {:induction false} CollectAppend<V(!new), W(!new)>(a: seq<V>, b: seq<V>, f: V -> Option<W>)
    ensures Collect(a + b, f) == Collect(a, f) + Collect(b, f)
  {
    if b == [] {
      assert a + b == a;
    } else {
      var init, x := b[..|b| - 1], b[|b| - 1];
      assert b == init + [x];
      assert a + b == (a + init) + [x];
      CollectAppend(a, init, f);
      CollectSnoc(a + init, x, f);
      CollectSnoc(init, x, f);
    }
  }

  /** One more input adds its output at the end exactly when f accepts it. */
  lemma CollectSnoc<V(!new), W(!new)>(vs: seq<V>, x: V, f: V -> Option<W>)
    ensures Collect(vs + [x], f) == Collect(vs, f) + if f(x).Some? then [f(x).value] else []
  {
    assert (vs + [x])[..|vs + [x]| - 1] == vs;
  }

  /** Filtering twice is filtering once by both conditions. */
  lemma {:induction false} WhereWhere<V(!new)>(vs: seq<V>, p: V -> bool, q: V -> bool)
    ensures Where(Where(vs, p), q) == Where(vs, Both(p, q))
  {
    if vs != [] {
      var n := |vs| - 1;
      WhereWhere(vs[..n], p, q);
      if p(vs[n]) {
        WhereAppend(Where(vs[..n], p), [vs[n]], q);
        assert Where([vs[n]], q) == if q(vs[n]) then [vs[n]] else [] by {
          assert [vs[n]][..0] == [];
        }
      }
    }
  }

  /** One more input adds one output exactly when it matches. */
  lemma WhereLast<V(!new)>(vs: seq<V>, p: V -> bool)
    requires vs != []
    ensures |Where(vs, p)| == |Where(vs[..|vs| - 1], p)| + if p(vs[|vs| - 1]) then 1 else 0
  {
  }

  /**
    Filtering the values of a table keeps one entry per key whose row matches: the length of
    `[r for r in d.values() if p(r)]` is the number of such keys, for the first n keys.
  */
  lemma {:induction false} WhereCountPrefix<K(!new), V(!new)>(t: Table<K, V>, p: V -> bool, n: nat)
    requires t.Valid() && n <= |t.order|
    ensures |Where(t.Values()[..n], p)| == |MatchingKeys(t, p, n)|
  {
    if n == 0 {
      assert MatchingKeys(t, p, n) == {};
    } else {
      WhereCountPrefix(t, p, n - 1);
      var vs := t.Values();
      var w := vs[..n];
      WhereLast(w, p);
      assert w[..n - 1] == vs[..n - 1];
      assert w[n - 1] == t.rows[t.order[n - 1]];
      MatchingKeysStep(t, p, n);
    }
  }

  /** The keys among the first n whose row satisfies p. */
  ghost function MatchingKeys<K(!new), V(!new)>(t: Table<K, V>, p: V -> bool, n: nat): set<K>
    requires t.Valid() && n <= |t.order|
  {
    set k | k in t.rows && k in t.order[..n] && p(t.rows[k])
  }

  /** Taking one more key adds it to the matching keys exactly when its row matches. */
  lemma MatchingKeysStep<K(!new), V(!new)>(t: Table<K, V>, p: V -> bool, n: nat)
    requires t.Valid() && 0 < n <= |t.order|
    ensures |MatchingKeys(t, p, n)| == |MatchingKeys(t, p, n - 1)| + if p(t.rows[t.order[n - 1]]) then 1 else 0
  {
    var k := t.order[n - 1];
    assert t.order[..n] == t.order[..n - 1] + [k];
    assert k !in t.order[..n - 1];
    if p(t.rows[k]) {
      assert MatchingKeys(t, p, n) == MatchingKeys(t, p, n - 1) + {k};
    } else {
      assert MatchingKeys(t, p, n) == MatchingKeys(t, p, n - 1);
    }
  }

  /** The keys whose row satisfies p. */
  ghost function KeysWhere<K(!new), V(!new)>(t: Table<K, V>, p: V -> bool): set<K>
  {
    set k | k in t.rows && p(t.rows[k])
  }

  /** `len([r for r in d.values() if p(r)])` is the number of keys whose row satisfies p. */
  lemma WhereCount<K(!new), V(!new)>(t: Table<K, V>, p: V -> bool)
    requires t.Valid()
    ensures |Where(t.Values(), p)| == |KeysWhere(t, p)|
  {
    var n := |t.order|;
    WhereCountPrefix(t, p, n);
    assert t.Values()[..n] == t.Values();
    assert MatchingKeys(t, p, n) == KeysWhere(t, p) by {
      assert t.order[..n] == t.order;
    }
  }

  /** `[f(x) for x in vs]` */
  function Map<V, W>(vs: seq<V>, f: V -> W): (r: seq<W>)
    ensures |r| == |vs|
    ensures forall i :: 0 <= i < |vs| ==> r[i] == f(vs[i])
  {
    if vs == [] then [] else Map(vs[..|vs| - 1], f) + [f(vs[|vs| - 1])]
  }

  /**
    The lookup loop of the stores, `for x in d.values(): if p(x): return x` followed by
    `return None`: it returns the first row in insertion order that satisfies p.
  */
  method FindFirst<K(==,!new), V(!new)>(t: Table<K, V>, p: V -> bool) returns (r: Option<V>)
    requires t.Valid()
    ensures r == First(t.Values(), p)
    ensures r.None? <==> forall k :: k in t.rows ==> !p(t.rows[k])
    ensures r.Some? ==> p(r.value) && exists k :: k in t.rows && t.rows[k] == r.value
  {
    var vs := t.Values();
    var i := 0;
    while i < |vs|
      invariant 0 <= i <= |vs|
      invariant forall j :: 0 <= j < i ==> !p(vs[j])
    {
      if p(vs[i]) {
        assert t.rows[t.order[i]] == vs[i];
        return Some(vs[i]);
      }
      i := i + 1;
    }
    forall k | k in t.rows
      ensures !p(t.rows[k])
    {
      var j :| 0 <= j < |t.order| && t.order[j] == k;
      assert vs[j] == t.rows[k];
    }
    return None;
  }
}

/** Generic facts about tables held as sequences of rows: key uniqueness,
    the set of keys, filtering (DELETE ... WHERE), row-wise updates (UPDATE ... WHERE)
    and a stable sort by an integer key (ORDER BY). */
module Tables {
  import opened Base

  /** No two rows share a key (a PRIMARY KEY or UNIQUE KEY). */
  predicate Distinct<T, K(==)>(xs: seq<T>, key: T -> K)
  {
    forall i, j :: 0 <= i < j < |xs| ==> key(xs[i]) != key(xs[j])
  }

  /** The set of keys present in a table. */
  function Keys<T(==), K>(xs: seq<T>, key: T -> K): set<K>
  {
    set x | x in xs :: key(x)
  }

  lemma KeysCons<T, K>(xs: seq<T>, key: T -> K)
    requires xs != []
    ensures Keys(xs, key) == {key(xs[0])} + Keys(xs[1..], key)
  {
    assert forall y :: y in xs <==> y == xs[0] || y in xs[1..];
  }

  /** The first row with the given key (a `[0]` pick from a keyed lookup). */
  function FindBy<T, K(==)>(xs: seq<T>, key: T -> K, k: K): (r: Option<T>)
    ensures r.Some? ==> r.value in xs && key(r.value) == k
    ensures r.None? <==> k !in Keys(xs, key)
  {
    if xs == [] then None
    else
      KeysCons(xs, key);
      if key(xs[0]) == k then Some(xs[0]) else FindBy(xs[1..], key, k)
  }

  /** With distinct keys, the row found is the only one with that key. */
  lemma FindByUnique<T, K>(xs: seq<T>, key: T -> K, x: T)
    requires Distinct(xs, key) && x in xs
    ensures FindBy(xs, key, key(x)) == Some(x)
  {
    var r := FindBy(xs, key, key(x));
    assert key(x) in Keys(xs, key);
    DistinctSame(xs, key, r.value, x);
  }

  /** Rows satisfying p, in table order. */
  function Filter<T(!new,==)>(xs: seq<T>, p: T -> bool): (r: seq<T>)
    ensures |r| <= |xs|
    ensures forall x :: x in r <==> x in xs && p(x)
  {
    if xs == [] then []
    else (if p(xs[0]) then [xs[0]] else []) + Filter(xs[1..], p)
  }

  lemma {:induction false} FilterDistinct<T(!new), K>(xs: seq<T>, p: T -> bool, key: T -> K)
    ensures Distinct(xs, key) ==> Distinct(Filter(xs, p), key)
  {
    if xs != [] && Distinct(xs, key) {
      assert Distinct(xs[1..], key) by {
        forall i, j | 0 <= i < j < |xs[1..]| ensures key(xs[1..][i]) != key(xs[1..][j]) {
          assert xs[1..][i] == xs[i + 1] && xs[1..][j] == xs[j + 1];
        }
      }
      FilterDistinct(xs[1..], p, key);
      var rest := Filter(xs[1..], p);
      if p(xs[0]) {
        var r := [xs[0]] + rest;
        forall i, j | 0 <= i < j < |r|
          ensures key(r[i]) != key(r[j])
        {
          if i == 0 {
            assert r[j] in xs[1..];
            var k :| 0 <= k < |xs[1..]| && xs[1..][k] == r[j];
            assert xs[k + 1] == r[j];
          } else {
            assert r[i] == rest[i - 1] && r[j] == rest[j - 1];
          }
        }
      }
    }
  }

  /** Filtering distributes over appending a row. */
  lemma {:induction false} FilterAppend<T(!new)>(xs: seq<T>, x: T, p: T -> bool)
    ensures Filter(xs + [x], p) == Filter(xs, p) + (if p(x) then [x] else [])
  {
    var tail := if p(x) then [x] else [];
    if xs == [] {
      assert xs + [x] == [x];
      assert Filter([x], p) == tail + Filter([], p);
    } else {
      var head := if p(xs[0]) then [xs[0]] else [];
      assert (xs + [x])[0] == xs[0];
      assert (xs + [x])[1..] == xs[1..] + [x];
      FilterAppend(xs[1..], x, p);
      calc {
        Filter(xs + [x], p);
        head + Filter(xs[1..] + [x], p);
        head + (Filter(xs[1..], p) + tail);
        (head + Filter(xs[1..], p)) + tail;
        Filter(xs, p) + tail;
      }
    }
  }

  /** In a table with distinct keys, a key identifies its row. */
  lemma DistinctSame<T, K>(xs: seq<T>, key: T -> K, x: T, y: T)
    requires Distinct(xs, key) && x in xs && y in xs && key(x) == key(y)
    ensures x == y
  {
    var i :| 0 <= i < |xs| && xs[i] == x;
    var j :| 0 <= j < |xs| && xs[j] == y;
    assert i == j;
  }

  /** A filter that keeps every row is the identity. */
  lemma {:induction false} FilterAll<T(!new)>(xs: seq<T>, p: T -> bool)
    requires forall x :: x in xs ==> p(x)
    ensures Filter(xs, p) == xs
  {
    if xs != [] {
      FilterAll(xs[1..], p);
      assert xs == [xs[0]] + xs[1..];
    }
  }

  /** Keys survive a row-wise update that leaves each row's key alone. */
  lemma SameKeys<T, K>(xs: seq<T>, ys: seq<T>, key: T -> K)
    requires |xs| == |ys|
    requires forall i :: 0 <= i < |xs| ==> key(xs[i]) == key(ys[i])
    ensures Keys(xs, key) == Keys(ys, key)
    ensures Distinct(xs, key) ==> Distinct(ys, key)
  {
    forall k | k in Keys(xs, key) ensures k in Keys(ys, key) {
      var x :| x in xs && key(x) == k;
      var i :| 0 <= i < |xs| && xs[i] == x;
      assert ys[i] in ys;
    }
    forall k | k in Keys(ys, key) ensures k in Keys(xs, key) {
      var y :| y in ys && key(y) == k;
      var i :| 0 <= i < |ys| && ys[i] == y;
      assert xs[i] in xs;
    }
  }

  /** Appending a row whose key is new keeps the keys distinct. */
  lemma AppendDistinct<T, K>(xs: seq<T>, x: T, key: T -> K)
    requires Distinct(xs, key)
    requires key(x) !in Keys(xs, key)
    ensures Distinct(xs + [x], key)
    ensures Keys(xs + [x], key) == Keys(xs, key) + {key(x)}
  {
    var r := xs + [x];
    forall i, j | 0 <= i < j < |r| ensures key(r[i]) != key(r[j]) {
      if j == |xs| {
        assert r[i] == xs[i] && xs[i] in xs;
      } else {
        assert r[i] == xs[i] && r[j] == xs[j];
      }
    }
    forall k | k in Keys(r, key) ensures k in Keys(xs, key) + {key(x)} {
      var y :| y in r && key(y) == k;
      if y != x { assert y in xs; }
    }
  }

  /** Rows are in non-decreasing key order. */
  predicate SortedBy<T>(xs: seq<T>, key: T -> int)
  {
    forall i, j :: 0 <= i < j < |xs| ==> key(xs[i]) <= key(xs[j])
  }

  lemma SortedTail<T>(xs: seq<T>, key: T -> int)
    requires xs != []
    ensures SortedBy(xs, key) ==> SortedBy(xs[1..], key)
  {
    if SortedBy(xs, key) {
      forall i, j | 0 <= i < j < |xs[1..]| ensures key(xs[1..][i]) <= key(xs[1..][j]) {
        assert xs[1..][i] == xs[i + 1] && xs[1..][j] == xs[j + 1];
      }
    }
  }

  /** Each row mapped through f, in order, dropping the rows f maps to None. */
  function MapSome<A, B>(xs: seq<A>, f: A -> Option<B>): (r: seq<B>)
    ensures forall y :: y in r ==> exists x :: x in xs && f(x) == Some(y)
    ensures forall x :: x in xs && f(x).Some? ==> f(x).value in r
  {
    if xs == [] then []
    else
      var rest := MapSome(xs[1..], f);
      assert forall x :: x in xs ==> x == xs[0] || x in xs[1..];
      match f(xs[0])
      case None => rest
      case Some(y) => [y] + rest
  }

  /** Mapping keeps the order when each kept row's image carries the row's key. */
  lemma {:induction false} MapSomeSorted<A, B>(xs: seq<A>, f: A -> Option<B>, ka: A -> int, kb: B -> int)
    requires SortedBy(xs, ka)
    requires forall x :: x in xs && f(x).Some? ==> kb(f(x).value) == ka(x)
    ensures SortedBy(MapSome(xs, f), kb)
  {
    if xs != [] {
      SortedTail(xs, ka);
      MapSomeSorted(xs[1..], f, ka, kb);
      var rest := MapSome(xs[1..], f);
      MapSomeCons(xs, f);
      if f(xs[0]).Some? {
        HeadFirst(xs, f, ka, kb, rest);
        PrependSorted(f(xs[0]).value, rest, kb);
      }
    }
  }

  lemma MapSomeCons<A, B>(xs: seq<A>, f: A -> Option<B>)
    requires xs != []
    ensures f(xs[0]).None? ==> MapSome(xs, f) == MapSome(xs[1..], f)
    ensures f(xs[0]).Some? ==> MapSome(xs, f) == [f(xs[0]).value] + MapSome(xs[1..], f)
  {
  }

  /** A row no later than every row of a sorted table may go first. */
  lemma PrependSorted<T>(y: T, rest: seq<T>, key: T -> int)
    requires SortedBy(rest, key) && forall z :: z in rest ==> key(y) <= key(z)
    ensures SortedBy([y] + rest, key)
  {
    var r := [y] + rest;
    forall i, j | 0 <= i < j < |r| ensures key(r[i]) <= key(r[j]) {
      assert r[j] == rest[j - 1];
      if i > 0 {
        assert r[i] == rest[i - 1];
      }
    }
  }

  lemma HeadFirst<A, B>(xs: seq<A>, f: A -> Option<B>, ka: A -> int, kb: B -> int, rest: seq<B>)
    requires xs != [] && SortedBy(xs, ka) && f(xs[0]).Some?
    requires forall x :: x in xs && f(x).Some? ==> kb(f(x).value) == ka(x)
    requires forall z :: z in rest ==> exists x :: x in xs[1..] && f(x) == Some(z)
    ensures forall z :: z in rest ==> kb(f(xs[0]).value) <= kb(z)
  {
    forall z | z in rest ensures kb(f(xs[0]).value) <= kb(z) {
      var x :| x in xs[1..] && f(x) == Some(z);
      var k :| 0 <= k < |xs[1..]| && xs[1..][k] == x;
      assert xs[k + 1] == x;
    }
  }

  /** Places x after every row whose key is at most key(x). */
  function Insert<T>(x: T, xs: seq<T>, key: T -> int): (r: seq<T>)
    requires SortedBy(xs, key)
    ensures SortedBy(r, key)
    ensures multiset(r) == multiset(xs) + multiset{x}
  {
    if xs == [] then [x]
    else if key(x) < key(xs[0]) then [x] + xs
    else
      var rest := Insert(x, xs[1..], key);
      ConsSorted(xs, x, rest, key);
      [xs[0]] + rest
  }

  /** The head of a sorted table may precede any re-arrangement of its tail
      together with a row whose key is not smaller. */
  lemma ConsSorted<T>(xs: seq<T>, x: T, rest: seq<T>, key: T -> int)
    requires xs != [] && SortedBy(xs, key) && key(xs[0]) <= key(x)
    requires SortedBy(rest, key)
    requires multiset(rest) == multiset(xs[1..]) + multiset{x}
    ensures SortedBy([xs[0]] + rest, key)
    ensures multiset([xs[0]] + rest) == multiset(xs) + multiset{x}
  {
    assert xs == [xs[0]] + xs[1..];
    var r := [xs[0]] + rest;
    forall i, j | 0 <= i < j < |r| ensures key(r[i]) <= key(r[j]) {
      if i == 0 {
        var y := rest[j - 1];
        assert y in multiset(rest);
        if y != x {
          assert y in multiset(xs[1..]);
          var k :| 0 <= k < |xs[1..]| && xs[1..][k] == y;
          assert xs[k + 1] == y;
        }
      } else {
        assert r[i] == rest[i - 1] && r[j] == rest[j - 1];
      }
    }
  }

  /** Stable insertion sort by an integer key. */
  function SortBy<T>(xs: seq<T>, key: T -> int): (r: seq<T>)
    ensures SortedBy(r, key)
    ensures multiset(r) == multiset(xs)
    ensures |r| == |xs|
  {
    if xs == [] then []
    else
      var n := |xs| - 1;
      assert multiset(xs) == multiset(xs[..n]) + multiset{xs[n]} by {
        assert xs == xs[..n] + [xs[n]];
      }
      Insert(xs[n], SortBy(xs[..n], key), key)
  }

  /** The rows in the opposite order (Array.prototype.reverse). */
  function Reverse<T>(xs: seq<T>): (r: seq<T>)
    ensures |r| == |xs|
    ensures forall i :: 0 <= i < |xs| ==> r[i] == xs[|xs| - 1 - i]
  {
    seq(|xs|, i requires 0 <= i < |xs| => xs[|xs| - 1 - i])
  }

  /** Reversing keeps the rows, with their multiplicities. */
  lemma {:induction false} ReverseSameRows<T>(xs: seq<T>)
    ensures multiset(Reverse(xs)) == multiset(xs)
  {
    if xs != [] {
      var n := |xs| - 1;
      assert xs == [xs[0]] + xs[1..];
      assert Reverse(xs) == Reverse(xs[1..]) + [xs[0]];
      ReverseSameRows(xs[1..]);
    }
  }

  /** Every row mapped through f, in order (the column list of a query). */
  function Project<A, B>(xs: seq<A>, f: A -> B): (r: seq<B>)
    ensures |r| == |xs|
    ensures forall i :: 0 <= i < |xs| ==> r[i] == f(xs[i])
  {
    seq(|xs|, i requires 0 <= i < |xs| => f(xs[i]))
  }

  /** Re-arranging the rows re-arranges their images the same way. */
  lemma {:induction false} ProjectPermutes<A, B>(xs: seq<A>, ys: seq<A>, f: A -> B)
    requires multiset(xs) == multiset(ys)
    ensures multiset(Project(xs, f)) == multiset(Project(ys, f))
    decreases |xs|
  {
    if xs == [] {
      assert |ys| == |multiset(ys)| == 0;
    } else {
      assert xs[0] in multiset(ys);
      var i :| 0 <= i < |ys| && ys[i] == xs[0];
      MatchHead(xs, ys, i);
      ProjectPermutes(xs[1..], ys[..i] + ys[i + 1..], f);
      MatchHeadImage(xs, ys, i, f);
    }
  }

  /** Matching the first row of xs with row i of ys leaves two re-arrangements. */
  lemma MatchHead<T>(xs: seq<T>, ys: seq<T>, i: nat)
    requires multiset(xs) == multiset(ys) && xs != [] && i < |ys| && ys[i] == xs[0]
    ensures multiset(xs[1..]) == multiset(ys[..i] + ys[i + 1..])
  {
    RemoveOne(xs, 0);
    RemoveOne(ys, i);
    assert xs[..0] + xs[1..] == xs[1..];
    Cancel(multiset(xs[1..]), multiset(ys[..i] + ys[i + 1..]), xs[0]);
  }

  lemma MatchHeadImage<A, B>(xs: seq<A>, ys: seq<A>, i: nat, f: A -> B)
    requires xs != [] && i < |ys| && ys[i] == xs[0]
    requires multiset(Project(xs[1..], f)) == multiset(Project(ys[..i] + ys[i + 1..], f))
    ensures multiset(Project(xs, f)) == multiset(Project(ys, f))
  {
    ImageHead(xs, f);
    RemoveOneImage(ys, i, f);
  }

  /** The first row's image and the images of the rest make up the projection. */
  lemma ImageHead<A, B>(xs: seq<A>, f: A -> B)
    requires xs != []
    ensures multiset(Project(xs, f)) == multiset(Project(xs[1..], f)) + multiset{f(xs[0])}
  {
    RemoveOneImage(xs, 0, f);
    assert xs[..0] + xs[1..] == xs[1..];
  }

  lemma Cancel<T>(a: multiset<T>, b: multiset<T>, x: T)
    requires a + multiset{x} == b + multiset{x}
    ensures a == b
  {
    assert a == (a + multiset{x}) - multiset{x};
    assert b == (b + multiset{x}) - multiset{x};
  }

  /** Taking out the row at i takes it out of the multiset of rows. */
  lemma RemoveOne<T>(xs: seq<T>, i: nat)
    requires i < |xs|
    ensures multiset(xs) == multiset(xs[..i] + xs[i + 1..]) + multiset{xs[i]}
  {
    assert xs == xs[..i] + ([xs[i]] + xs[i + 1..]);
  }

  /** Taking out the row at i takes its image out of the projection. */
  lemma RemoveOneImage<A, B>(xs: seq<A>, i: nat, f: A -> B)
    requires i < |xs|
    ensures multiset(Project(xs, f)) == multiset(Project(xs[..i] + xs[i + 1..], f)) + multiset{f(xs[i])}
  {
    var p := Project(xs, f);
    var rest := xs[..i] + xs[i + 1..];
    assert Project(rest, f) == p[..i] + p[i + 1..] by {
      forall k | 0 <= k < |rest| ensures Project(rest, f)[k] == (p[..i] + p[i + 1..])[k] {
        if k < i {
          assert rest[k] == xs[k];
        } else {
          assert rest[k] == xs[k + 1];
        }
      }
    }
    RemoveOne(Project(xs, f), i);
  }

  lemma ProjectAppend<A, B>(xs: seq<A>, ys: seq<A>, f: A -> B)
    ensures Project(xs + ys, f) == Project(xs, f) + Project(ys, f)
  {
  }

  /** Two tables with distinct keys and no key in common concatenate to one. */
  lemma DistinctConcat<T, K>(xs: seq<T>, ys: seq<T>, key: T -> K)
    requires Distinct(xs, key) && Distinct(ys, key)
    requires forall x, y :: x in xs && y in ys ==> key(x) != key(y)
    ensures Distinct(xs + ys, key)
  {
    var r := xs + ys;
    forall i, j | 0 <= i < j < |r| ensures key(r[i]) != key(r[j]) {
      if j < |xs| {
        assert r[i] == xs[i] && r[j] == xs[j];
      } else if i < |xs| {
        assert r[i] == xs[i] && r[j] == ys[j - |xs|];
      } else {
        assert r[i] == ys[i - |xs|] && r[j] == ys[j - |xs|];
      }
    }
  }

  /** With distinct keys a row occurs at most once. */
  lemma {:induction false} DistinctOnce<T, K>(xs: seq<T>, key: T -> K, y: T)
    requires Distinct(xs, key)
    ensures multiset(xs)[y] <= 1
  {
    if xs != [] {
      assert xs == [xs[0]] + xs[1..];
      assert Distinct(xs[1..], key) by {
        forall i, j | 0 <= i < j < |xs[1..]| ensures key(xs[1..][i]) != key(xs[1..][j]) {
          assert xs[1..][i] == xs[i + 1] && xs[1..][j] == xs[j + 1];
        }
      }
      DistinctOnce(xs[1..], key, y);
    }
  }

  /** A re-arrangement of a table with distinct keys has distinct keys. */
  lemma DistinctPermutes<T, K>(xs: seq<T>, ys: seq<T>, key: T -> K)
    requires multiset(xs) == multiset(ys)
    ensures Distinct(xs, key) ==> Distinct(ys, key)
  {
    forall i, j | Distinct(xs, key) && 0 <= i < j < |ys| ensures key(ys[i]) != key(ys[j]) {
      if ys[i] == ys[j] {
        var y := ys[i];
        assert ys == ys[..j] + ys[j..];
        assert ys[..j][i] == y && ys[j..][0] == y;
        assert multiset(ys)[y] == multiset(ys[..j])[y] + multiset(ys[j..])[y];
        DistinctOnce(xs, key, y);
      } else {
        assert ys[i] in multiset(xs) && ys[j] in multiset(xs);
        var a :| 0 <= a < |xs| && xs[a] == ys[i];
        var b :| 0 <= b < |xs| && xs[b] == ys[j];
        assert a != b;
      }
    }
  }

  /** Mapping keeps keys distinct when each kept row's image carries the row's key. */
  lemma {:induction false} MapSomeDistinct<A, B, K>(xs: seq<A>, f: A -> Option<B>, ka: A -> K, kb: B -> K)
    requires forall x :: x in xs && f(x).Some? ==> kb(f(x).value) == ka(x)
    ensures Distinct(xs, ka) ==> Distinct(MapSome(xs, f), kb)
  {
    if xs != [] && Distinct(xs, ka) {
      assert Distinct(xs[1..], ka) by {
        forall i, j | 0 <= i < j < |xs[1..]| ensures ka(xs[1..][i]) != ka(xs[1..][j]) {
          assert xs[1..][i] == xs[i + 1] && xs[1..][j] == xs[j + 1];
        }
      }
      MapSomeDistinct(xs[1..], f, ka, kb);
      var rest := MapSome(xs[1..], f);
      MapSomeCons(xs, f);
      if f(xs[0]).Some? {
        forall z | z in rest ensures kb(f(xs[0]).value) != kb(z) {
          var x :| x in xs[1..] && f(x) == Some(z);
          var k :| 0 <= k < |xs[1..]| && xs[1..][k] == x;
          assert xs[k + 1] == x;
        }
        DistinctConcat([f(xs[0]).value], rest, kb);
      }
    }
  }
}

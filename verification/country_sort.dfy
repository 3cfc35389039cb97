/** `countries.sort(key=lambda x: x['name'])`: Python's `list.sort` is
    stable, so records with equal names keep their input order. The sort is
    modelled as a stable insertion sort, and `SortedStableUnique` shows that
    every stable sort by name yields the same list. */
module CountrySort {
  import opened Records
  import opened NameOrder

  /** Names never decrease from left to right. */
  ghost predicate SortedByName<P, V, C>(cs: seq<Country<P, V, C>>)
  {
    forall i, j :: 0 <= i < j < |cs| ==> NameLe(cs[i].name, cs[j].name)
  }

  /** The records named `n`, in their order in `cs`. */
  function Named<P, V, C>(cs: seq<Country<P, V, C>>, n: string): (r: seq<Country<P, V, C>>)
    ensures |r| <= |cs|
    ensures forall x :: x in r ==> x in cs && x.name == n
  {
    if |cs| == 0 then []
    else if cs[0].name == n then [cs[0]] + Named(cs[1..], n)
    else Named(cs[1..], n)
  }

  /** A non-empty sequence has a record named like its head. */
  lemma NamedOfHead<P, V, C>(cs: seq<Country<P, V, C>>)
    ensures |cs| > 0 ==> Named(cs, cs[0].name) == [cs[0]] + Named(cs[1..], cs[0].name)
  {
  }

  /** Inserts `c` in front of the first record whose name is not smaller. */
  function Insert<P, V, C>(c: Country<P, V, C>, cs: seq<Country<P, V, C>>): (r: seq<Country<P, V, C>>)
    requires SortedByName(cs)
    ensures SortedByName(r)
    ensures multiset(r) == multiset(cs) + multiset{c}
    ensures forall n :: Named(r, n) == if n == c.name then [c] + Named(cs, n) else Named(cs, n)
    decreases |cs|
  {
    if |cs| == 0 then [c]
    else if NameLe(c.name, cs[0].name) then
      InsertFrontSorted(c, cs);
      [c] + cs
    else
      var rest := Insert(c, cs[1..]);
      InsertAfterHead(c, cs, rest);
      [cs[0]] + rest
  }

  /** `c` in front of a sorted list whose head it does not exceed. */
  lemma {:induction false} InsertFrontSorted<P, V, C>(c: Country<P, V, C>, cs: seq<Country<P, V, C>>)
    requires SortedByName(cs) && |cs| > 0 && NameLe(c.name, cs[0].name)
    ensures SortedByName([c] + cs)
    ensures forall n :: Named([c] + cs, n) == if n == c.name then [c] + Named(cs, n) else Named(cs, n)
  {
    var r := [c] + cs;
    forall i, j | 0 <= i < j < |r| ensures NameLe(r[i].name, r[j].name) {
      if i == 0 && j > 1 {
        NameLeTransitive(c.name, cs[0].name, cs[j - 1].name);
      }
    }
    assert r[1..] == cs;
  }

  /** The head of a sorted list that is smaller than `c` stays in front of the
      list `c` was inserted into. */
  lemma {:induction false} InsertAfterHead<P, V, C>(c: Country<P, V, C>, cs: seq<Country<P, V, C>>, rest: seq<Country<P, V, C>>)
    requires SortedByName(cs) && |cs| > 0 && !NameLe(c.name, cs[0].name)
    requires SortedByName(rest)
    requires multiset(rest) == multiset(cs[1..]) + multiset{c}
    requires forall n :: Named(rest, n) == if n == c.name then [c] + Named(cs[1..], n) else Named(cs[1..], n)
    ensures SortedByName([cs[0]] + rest)
    ensures multiset([cs[0]] + rest) == multiset(cs) + multiset{c}
    ensures forall n :: Named([cs[0]] + rest, n) == if n == c.name then [c] + Named(cs, n) else Named(cs, n)
  {
    var r := [cs[0]] + rest;
    NameLeTotal(c.name, cs[0].name);
    NameLeReflexive(c.name);
    assert cs[0].name != c.name;
    forall j | 0 <= j < |rest| ensures NameLe(cs[0].name, rest[j].name) {
      assert rest[j] in multiset(rest);
      if rest[j] != c {
        assert rest[j] in multiset(cs[1..]);
        var k :| 0 <= k < |cs[1..]| && cs[1..][k] == rest[j];
        assert cs[k + 1] == rest[j];
      }
    }
    forall i, j | 0 <= i < j < |r| ensures NameLe(r[i].name, r[j].name) {
      if i > 0 {
        assert r[i] == rest[i - 1] && r[j] == rest[j - 1];
      } else {
        assert r[j] == rest[j - 1];
      }
    }
    assert r[1..] == rest;
    assert cs == [cs[0]] + cs[1..];
  }

  /** Stable insertion sort by name. */
  function SortByName<P, V, C>(cs: seq<Country<P, V, C>>): (r: seq<Country<P, V, C>>)
    ensures SortedByName(r)
    ensures multiset(r) == multiset(cs)
    ensures |r| == |cs|
    ensures forall n :: Named(r, n) == Named(cs, n)
  {
    if |cs| == 0 then []
    else
      var r := Insert(cs[0], SortByName(cs[1..]));
      assert cs == [cs[0]] + cs[1..];
      assert |r| == |multiset(r)| == |cs|;
      r
  }

  /** Some record of `cs` carries the name `n` when `Named(cs, n)` is not empty. */
  lemma {:induction false} NamedWitness<P, V, C>(cs: seq<Country<P, V, C>>, n: string) returns (k: nat)
    requires |Named(cs, n)| > 0
    ensures k < |cs| && cs[k].name == n
    decreases |cs|
  {
    if cs[0].name == n {
      k := 0;
    } else {
      var k' := NamedWitness(cs[1..], n);
      k := k' + 1;
    }
  }

  /** A sorted list is determined by its per-name subsequences: two lists
      sorted by name that list the records of every name in the same order
      are equal. So any stable sort by name gives `SortByName`'s result. */
  lemma {:induction false} SortedStableUnique<P, V, C>(a: seq<Country<P, V, C>>, b: seq<Country<P, V, C>>)
    requires SortedByName(a) && SortedByName(b)
    requires forall n :: Named(a, n) == Named(b, n)
    ensures a == b
    decreases |a|
  {
    NamedOfHead(a);
    NamedOfHead(b);
    if |a| > 0 && |b| > 0 {
      var m, m' := a[0].name, b[0].name;
      var kb := NamedWitness(b, m);
      var ka := NamedWitness(a, m');
      NameLeReflexive(m);
      NameLeReflexive(m');
      assert NameLe(m', m) by { assert NameLe(b[0].name, b[kb].name); }
      assert NameLe(m, m') by { assert NameLe(a[0].name, a[ka].name); }
      NameLeAntisymmetric(m, m');
      assert a[0] == Named(a, m)[0] == Named(b, m)[0] == b[0];
      forall n ensures Named(a[1..], n) == Named(b[1..], n) {
        if n == m {
          assert [a[0]] + Named(a[1..], n) == [b[0]] + Named(b[1..], n);
          assert Named(a[1..], n) == ([a[0]] + Named(a[1..], n))[1..];
          assert Named(b[1..], n) == ([b[0]] + Named(b[1..], n))[1..];
        } else {
          assert Named(a, n) == Named(a[1..], n);
          assert Named(b, n) == Named(b[1..], n);
        }
      }
      SortedStableUnique(a[1..], b[1..]);
      assert a == [a[0]] + a[1..];
      assert b == [b[0]] + b[1..];
    }
    assert |a| == 0 <==> |b| == 0;
  }
}

/** Registration and sorting of the entries: what the writer keeps of its input,
    and that the order of the input does not matter. */
module ArchiveOrder {
  import opened Wrappers
  import opened Bytes
  import opened PackagePaths
  import opened PackageTar

  /** The entries under their normalized paths. */
  function Named(u: Unicode, entries: seq<Entry>): (named: seq<Entry>)
    ensures |named| == |entries|
    ensures forall i :: 0 <= i < |entries| ==> named[i] == NamedEntry(u, entries[i])
  {
    seq(|entries|, i requires 0 <= i < |entries| => NamedEntry(u, entries[i]))
  }

  function NamedEntry(u: Unicode, e: Entry): Entry {
    Entry(u.nfc(e.path), e.data)
  }

  predicate ClashFree(u: Unicode, e: Entry, others: seq<Entry>) {
    forall other | other in others :: u.fold(other.path) != u.fold(e.path)
  }

  /** No two paths agree, not even after case folding. */
  predicate Distinct(u: Unicode, entries: seq<Entry>) {
    entries != [] ==> ClashFree(u, entries[0], entries[1..]) && Distinct(u, entries[1..])
  }

  predicate Sorted(entries: seq<Entry>) {
    |entries| > 1 ==> Compare(entries[0].path, entries[1].path) <= 0 && Sorted(entries[1..])
  }

  predicate Nameable(u: Unicode, e: Entry) {
    NormalizePackagePath(u, e.path).Ok?
  }

  // ---------- registration ----------

  predicate ClearOf(u: Unicode, taken: seq<Bytes>, entries: seq<Entry>) {
    forall t, e | t in taken && e in entries :: u.fold(t) != u.fold(e.path)
  }

  lemma RegisterIs(u: Unicode, taken: seq<Bytes>, path: Bytes)
    ensures Register(u, taken, path).Ok?
            <==> NormalizePackagePath(u, path).Ok? && forall t | t in taken :: u.fold(t) != u.fold(u.nfc(path))
    ensures Register(u, taken, path).Ok? ==> Register(u, taken, path).value == u.nfc(path)
  {
    NormalizedIsNfc(u, path);
    hide NormalizePackagePath;
  }

  lemma NormalizedIsNfc(u: Unicode, path: Bytes)
    ensures NormalizePackagePath(u, path).Ok? ==> NormalizePackagePath(u, path).value == u.nfc(path)
  {
  }

  lemma NamedCons(u: Unicode, entries: seq<Entry>)
    requires entries != []
    ensures Named(u, entries) == [NamedEntry(u, entries[0])] + Named(u, entries[1..])
    ensures Named(u, entries)[1..] == Named(u, entries[1..])
  {
  }

  ghost predicate Registrable(u: Unicode, taken: seq<Bytes>, entries: seq<Entry>) {
    && (forall e | e in entries :: Nameable(u, e))
    && Distinct(u, Named(u, entries))
    && ClearOf(u, taken, Named(u, entries))
  }

  lemma RegistrableCons(u: Unicode, taken: seq<Bytes>, entries: seq<Entry>)
    requires entries != []
    ensures Registrable(u, taken, entries)
            <==> Register(u, taken, entries[0].path).Ok? && Registrable(u, taken + [u.nfc(entries[0].path)], entries[1..])
  {
    var e := NamedEntry(u, entries[0]);
    var rest := Named(u, entries[1..]);
    RegisterIs(u, taken, entries[0].path);
    NamedCons(u, entries);
    hide Register, NormalizePackagePath, Named;
    assert (forall x | x in entries :: Nameable(u, x)) <==> Nameable(u, entries[0]) && forall x | x in entries[1..] :: Nameable(u, x) by {
      assert entries == [entries[0]] + entries[1..];
    }
    ClearOfCons(u, taken, e, rest);
  }

  lemma ClearOfCons(u: Unicode, taken: seq<Bytes>, e: Entry, rest: seq<Entry>)
    ensures ClearOf(u, taken + [e.path], rest) <==> ClearOf(u, taken, rest) && ClashFree(u, e, rest)
    ensures ClearOf(u, taken, [e] + rest) <==> ClearOf(u, taken, rest) && forall t | t in taken :: u.fold(t) != u.fold(e.path)
  {
  }

  /** Registration succeeds exactly on nameable paths without clashes, in any order. */
  lemma {:induction false} RegisterAllIs(u: Unicode, taken: seq<Bytes>, entries: seq<Entry>)
    ensures RegisterAll(u, taken, entries).Ok? <==> Registrable(u, taken, entries)
    ensures RegisterAll(u, taken, entries).Ok? ==> RegisterAll(u, taken, entries).value == Named(u, entries)
    decreases |entries|
  {
    if entries != [] {
      RegistrableCons(u, taken, entries);
      RegisterIs(u, taken, entries[0].path);
      hide Register, Registrable;
      NamedCons(u, entries);
      RegisterAllIs(u, taken + [u.nfc(entries[0].path)], entries[1..]);
    }
  }

  // ---------- sorting ----------

  lemma {:induction false} InsertIs(u: Unicode, e: Entry, entries: seq<Entry>)
    ensures multiset(Insert(e, entries)) == multiset(entries) + multiset{e}
    ensures Sorted(entries) ==> Sorted(Insert(e, entries))
    ensures Sorted(entries) && entries != [] && Compare(e.path, entries[0].path) > 0 ==>
              Insert(e, entries)[0] == entries[0]
    decreases |entries|
  {
    if entries != [] {
      assert entries == [entries[0]] + entries[1..];
      if Compare(e.path, entries[0].path) > 0 {
        CompareAntisymmetric(e.path, entries[0].path);
        InsertIs(u, e, entries[1..]);
        InsertHead(e, entries[1..]);
        assert Insert(e, entries)[1..] == Insert(e, entries[1..]);
      } else {
        assert ([e] + entries)[1..] == entries;
      }
    }
  }

  lemma InsertHead(e: Entry, entries: seq<Entry>)
    ensures |Insert(e, entries)| > 0
    ensures Insert(e, entries)[0] == e || (entries != [] && Insert(e, entries)[0] == entries[0])
  {
  }

  lemma {:induction false} SortIs(u: Unicode, entries: seq<Entry>)
    ensures multiset(SortByPath(entries)) == multiset(entries) && Sorted(SortByPath(entries))
  {
    if entries != [] {
      assert entries == [entries[0]] + entries[1..];
      SortIs(u, entries[1..]);
      InsertIs(u, entries[0], SortByPath(entries[1..]));
    }
  }

  lemma {:induction false} SortKeepsSorted(entries: seq<Entry>)
    requires Sorted(entries)
    ensures SortByPath(entries) == entries
  {
    if entries != [] {
      SortKeepsSorted(entries[1..]);
      assert entries == [entries[0]] + entries[1..];
    }
  }

  // ---------- permutations ----------

  function Without(entries: seq<Entry>, i: nat): seq<Entry>
    requires i < |entries|
  {
    entries[..i] + entries[i + 1..]
  }

  lemma WithoutMultiset(entries: seq<Entry>, i: nat)
    requires i < |entries|
    ensures multiset(Without(entries, i)) + multiset{entries[i]} == multiset(entries)
  {
    assert entries == entries[..i] + [entries[i]] + entries[i + 1..];
  }

  lemma {:induction false} DistinctWithout(u: Unicode, entries: seq<Entry>, i: nat)
    requires i < |entries| && Distinct(u, entries)
    ensures Distinct(u, Without(entries, i)) && ClashFree(u, entries[i], Without(entries, i))
  {
    if i == 0 {
      assert Without(entries, 0) == entries[1..];
    } else {
      var rest := entries[1..];
      DistinctWithout(u, rest, i - 1);
      var w := Without(entries, i);
      assert w == [entries[0]] + Without(rest, i - 1);
      assert forall other | other in Without(rest, i - 1) :: other in rest;
      assert rest[i - 1] == entries[i];
      assert w[1..] == Without(rest, i - 1);
    }
  }

  /** The first entry of `ys`, removed from both lists. */
  lemma Align(xs: seq<Entry>, ys: seq<Entry>) returns (i: nat)
    requires ys != [] && multiset(xs) == multiset(ys)
    ensures i < |xs| && xs[i] == ys[0]
    ensures multiset(Without(xs, i)) == multiset(ys[1..])
  {
    assert ys[0] in multiset(xs);
    i :| 0 <= i < |xs| && xs[i] == ys[0];
    WithoutMultiset(xs, i);
    assert ys == [ys[0]] + ys[1..];
    assert multiset(ys) - multiset{ys[0]} == multiset(ys[1..]);
    assert multiset(xs) - multiset{xs[i]} == multiset(Without(xs, i));
  }

  lemma {:induction false} DistinctPermuted(u: Unicode, xs: seq<Entry>, ys: seq<Entry>)
    requires Distinct(u, xs) && multiset(xs) == multiset(ys)
    ensures Distinct(u, ys)
    decreases |ys|
  {
    if ys != [] {
      var i := Align(xs, ys);
      DistinctWithout(u, xs, i);
      DistinctPermuted(u, Without(xs, i), ys[1..]);
      ClashFreePermuted(u, ys[0], Without(xs, i), ys[1..]);
    }
  }

  lemma ClashFreePermuted(u: Unicode, e: Entry, xs: seq<Entry>, ys: seq<Entry>)
    requires ClashFree(u, e, xs) && multiset(xs) == multiset(ys)
    ensures ClashFree(u, e, ys)
  {
    forall other | other in ys
      ensures u.fold(other.path) != u.fold(e.path)
    {
      assert other in multiset(ys);
      assert other in xs;
    }
  }

  lemma {:induction false} NamedPermuted(u: Unicode, xs: seq<Entry>, ys: seq<Entry>)
    requires multiset(xs) == multiset(ys)
    ensures multiset(Named(u, xs)) == multiset(Named(u, ys))
    decreases |ys|
  {
    if ys == [] {
      assert xs == [];
    } else {
      var i := Align(xs, ys);
      NamedPermuted(u, Without(xs, i), ys[1..]);
      NamedCons(u, ys);
      WithoutMultiset(Named(u, xs), i);
      assert Without(Named(u, xs), i) == Named(u, Without(xs, i));
    }
  }

  lemma {:induction false} SortedHead(entries: seq<Entry>, e: Entry)
    requires Sorted(entries) && e in entries
    ensures Compare(entries[0].path, e.path) <= 0
  {
    if e == entries[0] {
      CompareZero(e.path, e.path);
    } else {
      assert entries == [entries[0]] + entries[1..];
      SortedHead(entries[1..], e);
      CompareTransitive(entries[0].path, entries[1].path, e.path);
    }
  }

  /** Distinct entries have only one sorted order. */
  lemma {:induction false} SortedUnique(u: Unicode, xs: seq<Entry>, ys: seq<Entry>)
    requires Sorted(xs) && Sorted(ys) && Distinct(u, xs) && multiset(xs) == multiset(ys)
    ensures xs == ys
    decreases |xs|
  {
    if ys == [] {
      assert xs == [];
    } else {
      var i := Align(xs, ys);
      assert xs[0] in multiset(ys);
      SortedHead(xs, ys[0]);
      SortedHead(ys, xs[0]);
      CompareAntisymmetric(xs[0].path, ys[0].path);
      CompareZero(xs[0].path, ys[0].path);
      assert i == 0;
      assert Without(xs, 0) == xs[1..];
      SortedUnique(u, xs[1..], ys[1..]);
      assert xs == [xs[0]] + xs[1..] && ys == [ys[0]] + ys[1..];
    }
  }
}

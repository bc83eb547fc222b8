/**
  The in-memory compilation database entry (`Entry`), its equality, and the hash set
  (`Entries`) that load returns and save consumes.
 */
module Entries {
  import opened Wrappers
  import opened Paths

  /** One build command: working directory, source file, tokens, optional artifact. */
  datatype Entry = Entry(directory: Path, file: Path, command: seq<string>, output: Option<Path>)

  /**
    `impl PartialEq for Entry`: directory and file compare equal as paths (by their
    components) and the commands are identical; output is ignored.
   */
  predicate SameEntry(a: Entry, b: Entry) {
    SamePath(a.directory, b.directory) && SamePath(a.file, b.file) && a.command == b.command
  }

  /** The comparison ignores output, and identical entries compare equal. */
  lemma SameEntryIgnoresOutput(a: Entry, b: Entry, o: Option<Path>)
    ensures SameEntry(a, b) <==> SameEntry(a.(output := o), b)
    ensures a == b ==> SameEntry(a, b)
  {
  }

  /** `Eq for Entry`: the comparison is an equivalence relation. */
  lemma SameEntryIsEquivalence(a: Entry, b: Entry, c: Entry)
    ensures SameEntry(a, a)
    ensures SameEntry(a, b) ==> SameEntry(b, a)
    ensures SameEntry(a, b) && SameEntry(b, c) ==> SameEntry(a, c)
  {
  }

  /** Entries that compare equal need not be identical: a trailing separator on the directory is ignored. */
  lemma SameEntryTrailingSeparator(e: Entry)
    requires |e.directory.units| > 0
    ensures var d := Path(e.directory.units + [Separator]);
            SameEntry(e.(directory := d), e) && e.(directory := d) != e
  {
    ComponentsIgnoreTrailingSeparator(e.directory.units);
    assert |e.(directory := Path(e.directory.units + [Separator])).directory.units| != |e.directory.units|;
  }

  /** The components of an optional path. */
  function OptionalComponents(o: Option<Path>): (r: Option<seq<Component>>)
    ensures r.Some? <==> o.Some?
  {
    match o
    case None => None
    case Some(p) => Some(Components(p))
  }

  /**
    `#[derive(Hash)]` on `Entry`: all four fields, each path through its components as
    `Path`'s hash does. Hashes are idealised as collision-free.
   */
  function DerivedHash(e: Entry): (seq<Component>, seq<Component>, seq<string>, Option<seq<Component>>) {
    (Components(e.directory), Components(e.file), e.command, OptionalComponents(e.output))
  }

  /** The hash that agrees with `SameEntry`: directory, file and command only. */
  function EntryKey(e: Entry): (seq<Component>, seq<Component>, seq<string>) {
    (Components(e.directory), Components(e.file), e.command)
  }

  lemma EntryKeyAgreesWithEq(a: Entry, b: Entry)
    ensures EntryKey(a) == EntryKey(b) <==> SameEntry(a, b)
  {
  }

  /** The derived hash is equal exactly when the entries compare equal and their outputs are the same path. */
  lemma DerivedHashIsFinerThanEq(a: Entry, b: Entry)
    ensures DerivedHash(a) == DerivedHash(b) <==>
              SameEntry(a, b) && (a.output.Some? <==> b.output.Some?)
              && (a.output.Some? && b.output.Some? ==> SamePath(a.output.value, b.output.value))
  {
  }

  /** Equal hashes imply equal entries: every hash `HashSet` may use is at least this fine. */
  ghost predicate HashRefinesEq<K>(hash: Entry -> K) {
    forall a, b :: hash(a) == hash(b) ==> SameEntry(a, b)
  }

  lemma DerivedHashRefinesEq()
    ensures HashRefinesEq(DerivedHash)
  {
  }

  lemma EntryKeyRefinesEq()
    ensures HashRefinesEq(EntryKey)
  {
  }

  /**
    `HashSet::insert`: `e` is dropped when an element already stored has the same hash
    and compares equal to it; otherwise it is added. The stored elements are listed in
    insertion order.
   */
  function Insert<K(==)>(stored: seq<Entry>, e: Entry, hash: Entry -> K): seq<Entry> {
    if exists i :: 0 <= i < |stored| && hash(stored[i]) == hash(e) && SameEntry(stored[i], e)
    then stored
    else stored + [e]
  }

  /** Collecting entries, in order, into a hash set that uses `hash`. */
  function CollectWith<K(==)>(es: seq<Entry>, hash: Entry -> K): seq<Entry>
    decreases |es|
  {
    if |es| == 0 then [] else Insert(CollectWith(es[..|es| - 1], hash), es[|es| - 1], hash)
  }

  /** Collecting into `Entries` with a hash that agrees with equality. */
  function Collect(es: seq<Entry>): seq<Entry> {
    CollectWith(es, EntryKey)
  }

  /** No two elements compare equal: what a hash set with a hash that agrees with equality holds. */
  predicate Distinct(es: seq<Entry>) {
    forall j, k :: 0 <= j < k < |es| ==> !SameEntry(es[j], es[k])
  }

  /** No two elements have the same hash: what a hash set with a hash finer than equality holds. */
  predicate DistinctBy<K(==)>(es: seq<Entry>, hash: Entry -> K) {
    forall j, k :: 0 <= j < k < |es| ==> hash(es[j]) != hash(es[k])
  }

  /** The set the stored elements make up. */
  function ToSet(es: seq<Entry>): (r: set<Entry>)
    ensures forall e :: e in r <==> e in es
    ensures |es| == 0 ==> r == {}
  {
    var r := set e | e in es;
    assert |es| == 0 ==> forall e :: e !in r;
    r
  }

  /**
    With the derived hash, two entries that differ only in output land in different
    buckets and both stay in the set although they compare equal.
   */
  lemma DerivedHashKeepsEqualEntries()
    ensures var a := Entry(Path([]), Path([]), [], None);
            var b := Entry(Path([]), Path([]), [], Some(Path([])));
            SameEntry(a, b) && DerivedHash(a) != DerivedHash(b)
            && CollectWith([a, b], DerivedHash) == [a, b] && !Distinct([a, b])
  {
    var a := Entry(Path([]), Path([]), [], None);
    var b := Entry(Path([]), Path([]), [], Some(Path([])));
    assert [a, b][..1] == [a];
    assert [a][..0] == [];
    assert CollectWith([a], DerivedHash) == [a];
    assert DerivedHash(a) != DerivedHash(b);
  }

  /** With a hash finer than equality, insertion drops exactly the entries whose hash is already stored. */
  lemma InsertByHash<K>(stored: seq<Entry>, e: Entry, hash: Entry -> K)
    requires HashRefinesEq(hash)
    ensures (exists i :: 0 <= i < |stored| && hash(stored[i]) == hash(e)) ==> Insert(stored, e, hash) == stored
    ensures (forall i :: 0 <= i < |stored| ==> hash(stored[i]) != hash(e)) ==> Insert(stored, e, hash) == stored + [e]
  {
    if exists i :: 0 <= i < |stored| && hash(stored[i]) == hash(e) {
      var i :| 0 <= i < |stored| && hash(stored[i]) == hash(e);
      assert SameEntry(stored[i], e);
    }
  }

  /** Collecting keeps only entries of the input, whatever the hash. */
  lemma {:induction false} CollectSubset<K>(es: seq<Entry>, hash: Entry -> K)
    ensures forall j :: 0 <= j < |CollectWith(es, hash)| ==> CollectWith(es, hash)[j] in es
    decreases |es|
  {
    if |es| > 0 {
      var init := es[..|es| - 1];
      CollectSubset(init, hash);
      var c := CollectWith(init, hash);
      assert CollectWith(es, hash) == Insert(c, es[|es| - 1], hash);
      assert forall x :: x in init ==> x in es;
    }
  }

  /** Some stored entry compares equal to `e` and has its hash. */
  ghost predicate Represented<K>(stored: seq<Entry>, e: Entry, hash: Entry -> K) {
    exists j :: 0 <= j < |stored| && SameEntry(stored[j], e) && hash(stored[j]) == hash(e)
  }

  /** Storing more keeps every entry that was represented represented. */
  lemma RepresentedInPrefix<K>(c: seq<Entry>, r: seq<Entry>, e: Entry, hash: Entry -> K)
    requires c <= r && Represented(c, e, hash)
    ensures Represented(r, e, hash)
  {
    var j :| 0 <= j < |c| && SameEntry(c[j], e) && hash(c[j]) == hash(e);
    assert r[j] == c[j];
  }

  /** After insertion the inserted entry is represented, whatever the hash. */
  lemma InsertRepresents<K>(stored: seq<Entry>, e: Entry, hash: Entry -> K)
    ensures stored <= Insert(stored, e, hash)
    ensures Represented(Insert(stored, e, hash), e, hash)
  {
    var r := Insert(stored, e, hash);
    if !Represented(stored, e, hash) {
      assert r == stored + [e];
      assert r[|stored|] == e;
    }
  }

  /**
    Collecting keeps, for every input entry, a stored entry that compares equal to it and
    has the same hash, whatever the hash.
   */
  lemma {:induction false} CollectCovers<K>(es: seq<Entry>, hash: Entry -> K)
    ensures forall i :: 0 <= i < |es| ==> Represented(CollectWith(es, hash), es[i], hash)
    decreases |es|
  {
    if |es| > 0 {
      var init := es[..|es| - 1];
      var last := es[|es| - 1];
      CollectCovers(init, hash);
      var c := CollectWith(init, hash);
      var r := CollectWith(es, hash);
      assert r == Insert(c, last, hash);
      InsertRepresents(c, last, hash);
      forall i | 0 <= i < |es| - 1
        ensures Represented(r, es[i], hash)
      {
        assert es[i] == init[i];
        RepresentedInPrefix(c, r, es[i], hash);
      }
    }
  }

  /** With a hash finer than equality, no two stored entries share a hash. */
  lemma {:induction false} CollectKeepsHashesDistinct<K>(es: seq<Entry>, hash: Entry -> K)
    requires HashRefinesEq(hash)
    ensures DistinctBy(CollectWith(es, hash), hash)
    decreases |es|
  {
    if |es| > 0 {
      var c := CollectWith(es[..|es| - 1], hash);
      CollectKeepsHashesDistinct(es[..|es| - 1], hash);
      assert CollectWith(es, hash) == Insert(c, es[|es| - 1], hash);
      InsertByHash(c, es[|es| - 1], hash);
    }
  }

  /** Collecting with the hash that agrees with equality never stores two equal entries. */
  lemma CollectDistinct(es: seq<Entry>)
    ensures Distinct(Collect(es))
  {
    EntryKeyRefinesEq();
    CollectKeepsHashesDistinct(es, EntryKey);
    var c := Collect(es);
    forall j, k | 0 <= j < k < |c|
      ensures !SameEntry(c[j], c[k])
    {
      EntryKeyAgreesWithEq(c[j], c[k]);
    }
  }

  /** An input whose hashes are already distinct is collected unchanged, in order. */
  lemma {:induction false} CollectDistinctByInput<K>(es: seq<Entry>, hash: Entry -> K)
    requires HashRefinesEq(hash)
    requires DistinctBy(es, hash)
    ensures CollectWith(es, hash) == es
    decreases |es|
  {
    if |es| > 0 {
      var init := es[..|es| - 1];
      assert DistinctBy(init, hash);
      CollectDistinctByInput(init, hash);
      assert CollectWith(es, hash) == Insert(init, es[|es| - 1], hash);
      InsertByHash(init, es[|es| - 1], hash);
      assert init + [es[|es| - 1]] == es;
    }
  }

  /**
    The set made of the collected entries: only input entries, and for every input entry
    a member that compares equal and hashes the same. With a hash finer than equality, no
    two members share a hash.
   */
  lemma CollectedSet<K>(es: seq<Entry>, hash: Entry -> K)
    ensures forall x :: x in ToSet(CollectWith(es, hash)) ==> x in es
    ensures forall e :: e in es ==> exists x :: x in ToSet(CollectWith(es, hash)) && SameEntry(x, e) && hash(x) == hash(e)
    ensures HashRefinesEq(hash) ==>
              forall x, y :: x in ToSet(CollectWith(es, hash)) && y in ToSet(CollectWith(es, hash)) && hash(x) == hash(y) ==> x == y
  {
    var c := CollectWith(es, hash);
    CollectSubset(es, hash);
    CollectCovers(es, hash);
    SetOfCovering(es, c, hash);
    if HashRefinesEq(hash) {
      CollectKeepsHashesDistinct(es, hash);
      SetOfDistinctBy(c, hash);
    }
  }

  lemma SetOfCovering<K>(es: seq<Entry>, c: seq<Entry>, hash: Entry -> K)
    requires forall i :: 0 <= i < |es| ==> Represented(c, es[i], hash)
    ensures forall e :: e in es ==> exists x :: x in ToSet(c) && SameEntry(x, e) && hash(x) == hash(e)
  {
    forall e | e in es
      ensures exists x :: x in ToSet(c) && SameEntry(x, e) && hash(x) == hash(e)
    {
      var i :| 0 <= i < |es| && es[i] == e;
      var j :| 0 <= j < |c| && SameEntry(c[j], es[i]) && hash(c[j]) == hash(es[i]);
      assert c[j] in ToSet(c);
    }
  }

  /** Two entries with different hashes are distinct by that hash and make up a two-element set. */
  lemma PairDistinctBy<K>(a: Entry, b: Entry, hash: Entry -> K)
    requires hash(a) != hash(b)
    ensures DistinctBy([a, b], hash)
    ensures ToSet([a, b]) == {a, b} && a != b
  {
    assert [a, b][0] == a && [a, b][1] == b;
  }

  lemma SetOfDistinctBy<K>(c: seq<Entry>, hash: Entry -> K)
    requires DistinctBy(c, hash)
    ensures forall x, y :: x in ToSet(c) && y in ToSet(c) && hash(x) == hash(y) ==> x == y
  {
    forall x, y | x in ToSet(c) && y in ToSet(c) && hash(x) == hash(y)
      ensures x == y
    {
      var j :| 0 <= j < |c| && c[j] == x;
      var k :| 0 <= k < |c| && c[k] == y;
      assert !(j < k) && !(k < j);
    }
  }

  /** Collecting one more entry inserts it into what was collected before. */
  lemma CollectSnoc<K>(es: seq<Entry>, e: Entry, hash: Entry -> K)
    ensures CollectWith(es + [e], hash) == Insert(CollectWith(es, hash), e, hash)
  {
    assert (es + [e])[..|es|] == es;
  }
}

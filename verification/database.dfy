/**
  The `Database` façade. The backing file is modelled by the document it holds, already
  decoded from JSON; load converts every record, save converts every entry.
 */
module Database {
  import opened Wrappers
  import opened Paths
  import opened ShellWords
  import opened Entries
  import opened Aggregate
  import opened Records

  /** The decoded content of the compilation database file. */
  type Document = seq<GenericEntry>

  /** What `save` leaves behind: the file content and the call's result. */
  datatype Saved = Saved(file: Document, result: Result<(), string>)

  /**
    `Database::load` with the hash set's hash as a parameter: all or nothing. When every
    record converts, the entries collected into the hash set; otherwise the messages of
    all failing records, joined by ", ".
   */
  function LoadWith<K(==)>(doc: Document, sh: Tokenizer, hash: Entry -> K): (r: Result<set<Entry>, string>)
    ensures r.Success? <==> forall i :: 0 <= i < |doc| ==> Into(doc[i], sh).Success?
    ensures |doc| == 0 ==> r == Success({})
    ensures r.Failure? ==> |ErrorsOf(doc, Decoder(sh))| > 0
    ensures r.Failure? ==> r.error == Join(ErrorsOf(doc, Decoder(sh)), ", ")
  {
    match CollectAll(doc, Decoder(sh))
    case Success(entries) =>
      assert |doc| == 0 ==> CollectWith(entries, hash) == [];
      Success(ToSet(CollectWith(entries, hash)))
    case Failure(_) =>
      CollectAllSucceedsIffNoErrors(doc, Decoder(sh));
      Failure(Join(ErrorsOf(doc, Decoder(sh)), ", "))
  }

  /** `Database::load` as written: the `Entries` hash set uses the hash derived over all four fields. */
  function Load(doc: Document, sh: Tokenizer): Result<set<Entry>, string> {
    LoadWith(doc, sh, DerivedHash)
  }

  /** Load with a hash that agrees with `Entry`'s equality, as `Hash` requires. */
  function LoadCorrected(doc: Document, sh: Tokenizer): Result<set<Entry>, string> {
    LoadWith(doc, sh, EntryKey)
  }

  /**
    `Database::save`, given the set's entries in its iteration order: every entry is
    converted before anything is written, so on a failure the file is untouched and the
    error is that of the first entry that failed; otherwise the file holds one record per
    entry, in that order.
   */
  function Save(file: Document, entries: seq<Entry>, format: DatabaseFormat, sh: Tokenizer): (r: Saved)
    ensures r.result.Success? <==> forall i :: 0 <= i < |entries| ==> EntryRepresentable(entries[i])
    ensures r.result.Failure? ==> r.file == file
    ensures r.result.Failure? ==>
              var idx := FailingIndices(entries, Encoder(format, sh));
              |idx| > 0 && r.result.error == From(entries[idx[0]], format, sh).error
    ensures r.result.Success? ==>
              |r.file| == |entries| && forall i :: 0 <= i < |entries| ==> From(entries[i], format, sh) == Success(r.file[i])
  {
    match CollectAll(entries, Encoder(format, sh))
    case Failure(e) =>
      CollectAllFirstError(entries, Encoder(format, sh));
      Saved(file, Failure(e))
    case Success(records) => Saved(records, Success(()))
  }

  /**
    A successful load holds only converted records, and for every record a member that
    compares equal to its entry and has the same hash.
   */
  lemma LoadSucceeds<K>(doc: Document, sh: Tokenizer, hash: Entry -> K)
    requires forall i :: 0 <= i < |doc| ==> Into(doc[i], sh).Success?
    ensures LoadWith(doc, sh, hash).Success?
    ensures forall x :: x in LoadWith(doc, sh, hash).value ==> exists i :: 0 <= i < |doc| && Into(doc[i], sh) == Success(x)
    ensures forall g :: g in doc ==>
              exists x :: x in LoadWith(doc, sh, hash).value && SameEntry(x, Into(g, sh).value) && hash(x) == hash(Into(g, sh).value)
  {
    LoadHoldsConverted(doc, sh, hash);
    LoadCoversRecords(doc, sh, hash);
  }

  lemma LoadHoldsConverted<K>(doc: Document, sh: Tokenizer, hash: Entry -> K)
    requires forall i :: 0 <= i < |doc| ==> Into(doc[i], sh).Success?
    ensures LoadWith(doc, sh, hash).Success?
    ensures forall x :: x in LoadWith(doc, sh, hash).value ==> exists i :: 0 <= i < |doc| && Into(doc[i], sh) == Success(x)
  {
    var entries := CollectAll(doc, Decoder(sh)).value;
    var c := CollectWith(entries, hash);
    var r := LoadWith(doc, sh, hash).value;
    assert r == ToSet(c);
    CollectSubset(entries, hash);
    forall x | x in r
      ensures exists i :: 0 <= i < |doc| && Into(doc[i], sh) == Success(x)
    {
      var j :| 0 <= j < |c| && c[j] == x;
      var i :| 0 <= i < |entries| && entries[i] == x;
      assert Decoder(sh)(doc[i]) == Into(doc[i], sh);
    }
  }

  lemma LoadCoversRecords<K>(doc: Document, sh: Tokenizer, hash: Entry -> K)
    requires forall i :: 0 <= i < |doc| ==> Into(doc[i], sh).Success?
    ensures LoadWith(doc, sh, hash).Success?
    ensures forall g :: g in doc ==>
              exists x :: x in LoadWith(doc, sh, hash).value && SameEntry(x, Into(g, sh).value) && hash(x) == hash(Into(g, sh).value)
  {
    forall g | g in doc
      ensures exists x :: x in LoadWith(doc, sh, hash).value && SameEntry(x, Into(g, sh).value) && hash(x) == hash(Into(g, sh).value)
    {
      var i :| 0 <= i < |doc| && doc[i] == g;
      LoadCoversRecord(doc, sh, hash, i);
    }
  }

  lemma LoadCoversRecord<K>(doc: Document, sh: Tokenizer, hash: Entry -> K, i: int)
    requires forall i :: 0 <= i < |doc| ==> Into(doc[i], sh).Success?
    requires 0 <= i < |doc|
    ensures LoadWith(doc, sh, hash).Success?
    ensures exists x :: x in LoadWith(doc, sh, hash).value && SameEntry(x, Into(doc[i], sh).value) && hash(x) == hash(Into(doc[i], sh).value)
  {
    var entries := CollectAll(doc, Decoder(sh)).value;
    var c := CollectWith(entries, hash);
    assert LoadWith(doc, sh, hash).value == ToSet(c);
    CollectCovers(entries, hash);
    assert Decoder(sh)(doc[i]) == Into(doc[i], sh);
    assert Represented(c, entries[i], hash);
    var j :| 0 <= j < |c| && SameEntry(c[j], entries[i]) && hash(c[j]) == hash(entries[i]);
    assert c[j] in ToSet(c);
  }

  /** With a hash finer than equality, as the derived one is, no two members of a loaded set share a hash. */
  lemma LoadKeepsHashesDistinct<K>(doc: Document, sh: Tokenizer, hash: Entry -> K)
    requires HashRefinesEq(hash)
    requires LoadWith(doc, sh, hash).Success?
    ensures forall x, y :: x in LoadWith(doc, sh, hash).value && y in LoadWith(doc, sh, hash).value && hash(x) == hash(y) ==> x == y
  {
    CollectedSet(CollectAll(doc, Decoder(sh)).value, hash);
  }

  /** With the corrected hash, a successful load holds no two entries that compare equal. */
  lemma LoadCorrectedDistinct(doc: Document, sh: Tokenizer)
    requires LoadCorrected(doc, sh).Success?
    ensures forall x, y :: x in LoadCorrected(doc, sh).value && y in LoadCorrected(doc, sh).value && SameEntry(x, y) ==> x == y
  {
    EntryKeyRefinesEq();
    LoadKeepsHashesDistinct(doc, sh, EntryKey);
    forall x, y | x in LoadCorrected(doc, sh).value && y in LoadCorrected(doc, sh).value && SameEntry(x, y)
      ensures x == y
    {
      EntryKeyAgreesWithEq(x, y);
    }
  }

  /**
    Two records that differ only in output: the load as written keeps both entries,
    although they compare equal.
   */
  lemma LoadKeepsEntriesThatCompareEqual(sh: Tokenizer)
    ensures var doc := [ArrayEntry("", "", [], None), ArrayEntry("", "", [], Some(""))];
            var a := Entry(FromString(""), FromString(""), [], None);
            var b := Entry(FromString(""), FromString(""), [], Some(FromString("")));
            SameEntry(a, b) && a != b && Load(doc, sh) == Success({a, b})
  {
    var doc := [ArrayEntry("", "", [], None), ArrayEntry("", "", [], Some(""))];
    var a := Entry(FromString(""), FromString(""), [], None);
    var b := Entry(FromString(""), FromString(""), [], Some(FromString("")));
    assert Into(doc[0], sh) == Success(a);
    assert Into(doc[1], sh) == Success(b);
    assert DerivedHash(a) != DerivedHash(b);
    PairDistinctBy(a, b, DerivedHash);
    forall i | 0 <= i < |doc|
      ensures Into(doc[i], sh) == Success([a, b][i])
    {
    }
    LoadConverted(doc, sh, [a, b]);
  }

  /** The same two records under the corrected load: only the first entry is kept. */
  lemma LoadCorrectedKeepsFirstOfEqual(sh: Tokenizer)
    ensures var doc := [ArrayEntry("", "", [], None), ArrayEntry("", "", [], Some(""))];
            LoadCorrected(doc, sh) == Success({Entry(FromString(""), FromString(""), [], None)})
  {
    var doc := [ArrayEntry("", "", [], None), ArrayEntry("", "", [], Some(""))];
    var a := Entry(FromString(""), FromString(""), [], None);
    var b := Entry(FromString(""), FromString(""), [], Some(FromString("")));
    assert Into(doc[0], sh) == Success(a);
    assert Into(doc[1], sh) == Success(b);
    assert Decoder(sh)(doc[0]) == Success(a) && Decoder(sh)(doc[1]) == Success(b);
    var entries := CollectAll(doc, Decoder(sh));
    assert entries.value == [a, b];
    assert [a, b][..1] == [a] && [a][..0] == [];
    assert CollectWith([a], EntryKey) == [a];
    assert EntryKey([a][0]) == EntryKey(b) && SameEntry([a][0], b);
    assert CollectWith([a, b], EntryKey) == [a];
    assert ToSet([a]) == {a};
  }

  /**
    Each failing record is a string record whose command line does not split, and its
    message, in document order, is the one for that command.
   */
  lemma FailingRecordsMessages(doc: Document, sh: Tokenizer)
    ensures var idx := FailingIndices(doc, Decoder(sh));
            var errs := ErrorsOf(doc, Decoder(sh));
            && |errs| == |idx|
            && forall k :: 0 <= k < |idx| ==>
                 && doc[idx[k]].StringEntry?
                 && sh.split(doc[idx[k]].command).None?
                 && errs[k] == QuoteMismatch(doc[idx[k]].command)
  {
    var idx := FailingIndices(doc, Decoder(sh));
    var errs := ErrorsOf(doc, Decoder(sh));
    ErrorsOfFailing(doc, Decoder(sh));
    forall k | 0 <= k < |idx|
      ensures doc[idx[k]].StringEntry? && sh.split(doc[idx[k]].command).None?
      ensures errs[k] == QuoteMismatch(doc[idx[k]].command)
    {
      var g := doc[idx[k]];
      assert Decoder(sh)(g) == Into(g, sh);
      assert Into(g, sh).Failure?;
    }
  }

  /** A single record with mismatched quotes fails the whole load with exactly its message. */
  lemma LoadSingleBadRecord(doc: Document, sh: Tokenizer, i: nat)
    requires i < |doc| && doc[i].StringEntry? && sh.split(doc[i].command).None?
    requires forall j :: 0 <= j < |doc| && j != i ==> Into(doc[j], sh).Success?
    ensures Load(doc, sh) == Failure(QuoteMismatch(doc[i].command))
  {
    assert Decoder(sh)(doc[i]) == Into(doc[i], sh);
    assert forall j :: 0 <= j < |doc| && j != i ==> Decoder(sh)(doc[j]) == Into(doc[j], sh);
    ErrorsOfSingleFailure(doc, Decoder(sh), i);
  }

  /** The two entries of the load and save tests (`expected_values`). */
  function ExpectedValues(): set<Entry> {
    {Entry(FromString("/home/user"), FromString("./file_a.c"), ["cc", "-c", "./file_a.c", "-o", "./file_a.o"], None),
     Entry(FromString("/home/user"), FromString("./file_b.c"), ["cc", "-c", "./file_b.c", "-o", "./file_b.o"],
           Some(FromString("./file_b.o")))}
  }

  /**
    A document whose records convert to entries with pairwise different hashes loads to
    exactly those entries: the hash set drops nothing.
   */
  lemma LoadConverted(doc: Document, sh: Tokenizer, entries: seq<Entry>)
    requires |doc| == |entries| && forall i :: 0 <= i < |doc| ==> Into(doc[i], sh) == Success(entries[i])
    requires DistinctBy(entries, DerivedHash)
    ensures Load(doc, sh) == Success(ToSet(entries))
  {
    var loaded := CollectAll(doc, Decoder(sh));
    assert forall i :: 0 <= i < |doc| ==> Decoder(sh)(doc[i]) == Into(doc[i], sh);
    assert loaded.value == entries;
    DerivedHashRefinesEq();
    CollectDistinctByInput(entries, DerivedHash);
  }

  /** A document of two records whose conversions are `a` and `b`, with different commands, loads to `{a, b}`. */
  lemma LoadTwoRecords(doc: Document, sh: Tokenizer, a: Entry, b: Entry)
    requires |doc| == 2 && Into(doc[0], sh) == Success(a) && Into(doc[1], sh) == Success(b)
    requires a.command != b.command
    ensures Load(doc, sh) == Success({a, b})
  {
    assert DerivedHash(a) != DerivedHash(b);
    PairDistinctBy(a, b, DerivedHash);
    forall i | 0 <= i < |doc|
      ensures Into(doc[i], sh) == Success([a, b][i])
    {
    }
    LoadConverted(doc, sh, [a, b]);
  }

  /**
    `test_load_string_command`: two string records, the second with an output, load to
    the expected entries, given that `split` tokenizes their command lines on spaces.
   */
  lemma LoadStringCommand(sh: Tokenizer)
    requires sh.split("cc -c ./file_a.c -o ./file_a.o") == Some(["cc", "-c", "./file_a.c", "-o", "./file_a.o"])
    requires sh.split("cc -c ./file_b.c -o ./file_b.o") == Some(["cc", "-c", "./file_b.c", "-o", "./file_b.o"])
    ensures Load([StringEntry("/home/user", "./file_a.c", "cc -c ./file_a.c -o ./file_a.o", None),
                  StringEntry("/home/user", "./file_b.c", "cc -c ./file_b.c -o ./file_b.o", Some("./file_b.o"))], sh)
            == Success(ExpectedValues())
  {
    var doc := [StringEntry("/home/user", "./file_a.c", "cc -c ./file_a.c -o ./file_a.o", None),
                StringEntry("/home/user", "./file_b.c", "cc -c ./file_b.c -o ./file_b.o", Some("./file_b.o"))];
    var a := Entry(FromString("/home/user"), FromString("./file_a.c"), ["cc", "-c", "./file_a.c", "-o", "./file_a.o"], None);
    var b := Entry(FromString("/home/user"), FromString("./file_b.c"),
                   ["cc", "-c", "./file_b.c", "-o", "./file_b.o"], Some(FromString("./file_b.o")));
    assert Into(doc[0], sh) == Success(a);
    assert Into(doc[1], sh) == Success(b);
    assert a.command[2] != b.command[2];
    LoadTwoRecords(doc, sh, a, b);
  }

  /** `test_load_array_command`: the same two entries given as array records. */
  lemma LoadArrayCommand(sh: Tokenizer)
    ensures Load([ArrayEntry("/home/user", "./file_a.c", ["cc", "-c", "./file_a.c", "-o", "./file_a.o"], None),
                  ArrayEntry("/home/user", "./file_b.c", ["cc", "-c", "./file_b.c", "-o", "./file_b.o"], Some("./file_b.o"))], sh)
            == Success(ExpectedValues())
  {
    var doc := [ArrayEntry("/home/user", "./file_a.c", ["cc", "-c", "./file_a.c", "-o", "./file_a.o"], None),
                ArrayEntry("/home/user", "./file_b.c", ["cc", "-c", "./file_b.c", "-o", "./file_b.o"], Some("./file_b.o"))];
    var a := Entry(FromString("/home/user"), FromString("./file_a.c"), ["cc", "-c", "./file_a.c", "-o", "./file_a.o"], None);
    var b := Entry(FromString("/home/user"), FromString("./file_b.c"),
                   ["cc", "-c", "./file_b.c", "-o", "./file_b.o"], Some(FromString("./file_b.o")));
    assert Into(doc[0], sh) == Success(a);
    assert Into(doc[1], sh) == Success(b);
    assert a.command[2] != b.command[2];
    LoadTwoRecords(doc, sh, a, b);
  }

  /**
    Saving the entries of a hash set and loading the file back gives the same set, output
    included: always in the array shape, and in the string shape when `split` undoes
    `join` on every command. A `HashSet<Entry>` never holds two entries with the same
    derived hash.
   */
  lemma SaveThenLoad(file: Document, entries: seq<Entry>, format: DatabaseFormat, sh: Tokenizer)
    requires DistinctBy(entries, DerivedHash)
    requires forall i :: 0 <= i < |entries| ==> EntryRepresentable(entries[i])
    requires !format.commandAsArray ==> forall i :: 0 <= i < |entries| ==> JoinRoundTrips(sh, entries[i].command)
    ensures Save(file, entries, format, sh).result.Success?
    ensures Load(Save(file, entries, format, sh).file, sh) == Success(ToSet(entries))
  {
    var doc := Save(file, entries, format, sh).file;
    forall i | 0 <= i < |entries|
      ensures Into(doc[i], sh) == Success(entries[i])
    {
      if format.commandAsArray {
        IntoFromArray(entries[i], sh);
      } else {
        IntoFromString(entries[i], sh);
      }
      assert format == DatabaseFormat(format.commandAsArray);
    }
    LoadConverted(doc, sh, entries);
  }

  /** Every entry a load returns has string-form paths, so saving what was loaded cannot fail. */
  lemma LoadThenSave(doc: Document, sh: Tokenizer, file: Document, entries: seq<Entry>, format: DatabaseFormat)
    requires Load(doc, sh).Success?
    requires ToSet(entries) == Load(doc, sh).value
    ensures Save(file, entries, format, sh).result.Success?
  {
    LoadSucceeds(doc, sh, DerivedHash);
    forall i | 0 <= i < |entries|
      ensures EntryRepresentable(entries[i])
    {
      assert entries[i] in Load(doc, sh).value;
    }
  }

  /**
    The single traversal that can replace load's convert-then-diagnose double pass:
    converted entries go into the hash set while every element converted so far has
    succeeded, and the messages of failing elements are gathered on the way.
   */
  method CollectOrReport<A, K(==)>(xs: seq<A>, f: A -> Result<Entry, string>, hash: Entry -> K)
    returns (stored: seq<Entry>, errors: seq<string>)
    ensures errors == ErrorsOf(xs, f)
    ensures CollectAll(xs, f).Success? <==> |errors| == 0
    ensures |errors| == 0 ==> stored == CollectWith(CollectAll(xs, f).value, hash)
  {
    stored := [];
    errors := [];
    var i := 0;
    while i < |xs|
      invariant 0 <= i <= |xs|
      invariant errors == ErrorsOf(xs[..i], f)
      invariant CollectAll(xs[..i], f).Success? <==> |errors| == 0
      invariant |errors| == 0 ==> stored == CollectWith(CollectAll(xs[..i], f).value, hash)
      decreases |xs| - i
    {
      assert xs[..i + 1] == xs[..i] + [xs[i]];
      CollectAllSnoc(xs[..i], xs[i], f);
      ErrorsOfSnoc(xs[..i], xs[i], f);
      CollectAllSucceedsIffNoErrors(xs[..i + 1], f);
      match f(xs[i]) {
        case Success(e) =>
          if |errors| == 0 {
            CollectSnoc(CollectAll(xs[..i], f).value, e, hash);
            stored := Insert(stored, e, hash);
          }
        case Failure(msg) =>
          errors := errors + [msg];
      }
      i := i + 1;
    }
    assert xs[..i] == xs;
  }

  /** `Database::load` in one pass; it returns exactly what `Load` does. */
  method LoadOnePass(doc: Document, sh: Tokenizer) returns (r: Result<set<Entry>, string>)
    ensures r == Load(doc, sh)
  {
    var stored, errors := CollectOrReport(doc, Decoder(sh), DerivedHash);
    if |errors| == 0 {
      r := Success(ToSet(stored));
    } else {
      r := Failure(Join(errors, ", "));
    }
  }
}

# Bear compilation database: load/save conversion model

Bear writes a JSON *compilation database*: a list of per-file build-command records for
clang tooling. `rust/src/compilation/database.rs` converts between that on-disk list and an
in-memory hash set of `Entry` values. This project models the conversion in Dafny and proves
properties of it:

- the `Entry` data model and its hand-written equality, which ignores `output`;
- the two untagged record shapes (`GenericEntry`: `StringEntry` holds one shell-quoted
  command line, `ArrayEntry` holds pre-split `arguments`);
- the per-record converters `inner::into` (record to entry) and `inner::from` (entry to
  record under a `DatabaseFormat`);
- the façade `Database::load`, which is all or nothing and reports every failing record,
  and `Database::save`, which converts every entry before it writes anything.

Modules, bottom to top:

| file | module | models |
|---|---|---|
| `wrappers.dfy` | `Wrappers` | `Option`, `Result` |
| `paths.dfy` | `Paths` | a Unix path (`PathBuf`/`OsStr`), `Path::to_str`, `PathBuf::from(String)`, `Path::components` and the path equality built on it |
| `debug_format.dfy` | `DebugFormat` | the `{:?}` rendering used in both error messages, and a reader for it |
| `shell_words.dfy` | `ShellWords` | the `shellwords` crate's `split`/`join`, passed in as a `Tokenizer` |
| `entries.dfy` | `Entries` | `Entry`, its `PartialEq`, and collection into the `Entries` hash set |
| `aggregate.dfy` | `Aggregate` | `collect::<Result<Vec<_>,_>>`, `filter_map(Result::err)`, `[String]::join` |
| `records.dfy` | `Records` | `GenericEntry`, `DatabaseFormat`, `inner::from`, `inner::into` |
| `database.dfy` | `Database` | `Database::load`, `Database::save` |

The model has no I/O. The backing file is modelled by the document it holds, already decoded
from JSON (`Document = seq<GenericEntry>`). `save` returns a `Saved` value that holds the
file content afterwards and the call's result.

A path is modelled as the chunks a UTF-8 decoder sees in it: a sequence of valid characters
(`Char`) and stray bytes (`Raw`) that belong to no valid UTF-8 sequence. `Path::to_str`
succeeds exactly when there are no stray bytes (`Representable`).

The two error messages are modelled character by character:
- `"Quotes are mismatch in "` followed by the `{:?}` rendering of the command;
- `"Failed to convert to string "` followed by the `{:?}` rendering of the path.

`DebugFormat.Unescape` reads such a rendering back. So the proofs show that each message
names its command or path exactly, not just that it mentions it.

`split` and `join` belong to an external crate. They enter as the two functions of a
`Tokenizer` value. That `split` undoes `join` is a hypothesis of the lemmas that need it
(`JoinRoundTrips`, `SplitRoundTrips`); it is never proved.

Paths compare the way `PathBuf`'s `==` does: by their components, not their text. On
Unix, `Path::components` drops empty and `.` pieces after the first, so `a//b` equals
`a/b` and `/home/user/` equals `/home/user`. A leading `.` stays as a component, so `./a`
is not `a`. `Paths.Components` models this, and `SameEntry` and both hashes use it.
`Paths.Normalized` writes the components back as text: the root or a leading `.`, then
the kept pieces of the path in order. Two paths compare equal exactly when their normal
forms are the same text.

`HashSet<Entry>` is modelled as the list of stored elements in insertion order. An element is
dropped when a stored element has the same hash and compares equal to it (`Insert`). The
hash is a parameter of the load (`LoadWith`):

- `Database.Load` is `Database::load` as written. It uses `DerivedHash`, the hash that
  `#[derive(Hash)]` gives `Entry`, over all four fields. `Entry`'s equality ignores
  `output`, so two entries that differ only in `output` both stay in the set, although they
  compare equal (see Findings).
- `Database.LoadCorrected` uses `EntryKey`, a hash over directory, file and command, which
  agrees with the equality. It keeps exactly one entry per equality class: the first one
  met, since `HashSet::insert` keeps the element already stored.

Both hashes are at least as fine as the equality (`HashRefinesEq`), and the lemmas about
the collected set hold for any such hash.

`save` iterates a hash set, whose order is unspecified. The model therefore takes the
entries as an arbitrary enumeration (`seq<Entry>`). Its properties hold for every
enumeration, except which failing entry's error is reported, and the code does not fix that
either.

## Model

| member | source | states |
|---|---|---|
| `Paths.ToStr` | rust/src/compilation/database.rs:378-380 | `to_str` gives a string exactly for valid UTF-8 paths, and then that string has one character per path unit, in order |
| `Paths.FromString` | rust/src/compilation/database.rs:415-417 | `PathBuf::from(String)` is total and always gives a valid UTF-8 path, with one unit per character |
| `Paths.FromOptionalString` | rust/src/compilation/database.rs:417 | mapping `PathBuf::from` over an optional string keeps `None` as `None` and `Some` as `Some` |
| `Paths.ToStrFromString` | rust/src/compilation/database.rs:415-416 | a path built from a string gives that same string back from `to_str` |
| `Paths.FromStringToStr` | rust/src/compilation/database.rs:378-379 | a representable path is rebuilt exactly from its string form |
| `Paths.Components` | rust/src/compilation/database.rs:38-39 | the shape of the components `PathBuf`'s `==` compares: `RootDir` comes first exactly when the path starts with a separator; after the first, every component is a parent reference or a name; every name is non-empty, is neither `.` nor `..`, and holds no separator |
| `Paths.SegmentsOfConcat` | rust/src/compilation/database.rs:38-39 | splitting a text at a separator gives the pieces of the text before it, then the pieces of the text after it |
| `Paths.SegmentsOfJoin` | rust/src/compilation/database.rs:38-39 | splitting undoes joining: pieces without separators, joined and split again, come back unchanged |
| `Paths.NormalsKeepPieces` | rust/src/compilation/database.rs:38-39 | the components of a run of pieces name exactly its pieces other than the empty and `.` ones, in order |
| `Paths.DropsPieceWithoutComponent` | rust/src/compilation/database.rs:38-39 | for all texts `u` and `v`, an empty or `.` piece between two separators after `u` leaves the path equal to `u/v` |
| `Paths.RepeatedSeparatorIsSamePath` | rust/src/compilation/database.rs:38-39 | for all texts `u` and `v`, `u//v` is the same path as `u/v` |
| `Paths.InteriorCurDirIsSamePath` | rust/src/compilation/database.rs:38-39 | for all texts `u` and `v`, `u/./v` is the same path as `u/v` |
| `Paths.ComponentsOfRender` | rust/src/compilation/database.rs:38-39 | a component list of the shape `Components` gives, written out as text, has exactly those components |
| `Paths.SamePathIffNormalized` | rust/src/compilation/database.rs:38-39 | two paths compare equal exactly when their normal forms are the same text |
| `Paths.NormalizedIsSamePath` | rust/src/compilation/database.rs:38-39 | a path and its normal form compare equal |
| `Paths.NormalizedKeepsPieces` | rust/src/compilation/database.rs:38-39 | the normal form of a path is its root or leading `.`, then its pieces in order with the empty and `.` pieces dropped, joined by single separators |
| `Paths.JoinSegmentsOfSegments` | rust/src/compilation/database.rs:38-39 | splitting a path at its separators loses nothing: the pieces, rejoined with one separator between neighbours, give the path back |
| `Paths.ComponentsIgnoreTrailingSeparator` | rust/src/compilation/database.rs:38-39 | a non-empty path and the same path with a separator appended compare equal |
| `Paths.DoubledSeparatorIsSamePath` | rust/src/compilation/database.rs:38-39 | `a//b` and `a/b` compare equal as paths although they are different texts |
| `Paths.LeadingCurDirIsKept` | rust/src/compilation/database.rs:38-39 | `./a` and `a` do not compare equal as paths: a leading `.` is kept as a component |
| `DebugFormat.UnescapeEscapeUnits` | rust/src/compilation/database.rs:380 | the escaped body of a `{:?}` rendering reads back to exactly the units it renders, stray bytes included |
| `DebugFormat.SubjectOfMessage` | rust/src/compilation/database.rs:439 | a message made of a fixed prefix and a `{:?}` rendering determines its subject: the subject can be read back from the message |
| `Entries.SameEntryIgnoresOutput` | rust/src/compilation/database.rs:36-42 | replacing an entry's output never changes whether it compares equal to another entry, and identical entries compare equal |
| `Entries.SameEntryTrailingSeparator` | rust/src/compilation/database.rs:36-42 | two entries that differ only by a trailing separator on the directory compare equal but are not identical |
| `Entries.SameEntryIsEquivalence` | rust/src/compilation/database.rs:36-45 | the hand-written equality is reflexive, symmetric and transitive, as `Eq` requires |
| `Entries.EntryKeyAgreesWithEq` | rust/src/compilation/database.rs:36-42 | a hash over directory, file and command is equal for two entries exactly when they compare equal |
| `Entries.DerivedHashIsFinerThanEq` | rust/src/compilation/database.rs:28-42 | the derived hash is equal for two entries exactly when they compare equal, both or neither have an output, and present outputs are the same path |
| `Entries.DerivedHashRefinesEq` | rust/src/compilation/database.rs:28-42 | entries with equal derived hashes compare equal |
| `Entries.EntryKeyRefinesEq` | rust/src/compilation/database.rs:36-42 | entries with equal keys over directory, file and command compare equal |
| `Entries.DerivedHashKeepsEqualEntries` | rust/src/compilation/database.rs:28-47 | with the hash derived over all four fields, two entries that differ only in output hash differently, and collecting them keeps both although they compare equal |
| `Entries.InsertByHash` | rust/src/compilation/database.rs:47 | with a hash at least as fine as the equality, inserting leaves the set unchanged when an entry with the same hash is stored, and otherwise appends the entry |
| `Entries.CollectSubset` | rust/src/compilation/database.rs:70-72 | collecting entries into the set, with any hash, stores only entries of the input |
| `Entries.CollectCovers` | rust/src/compilation/database.rs:70-72 | after collecting, with any hash, every input entry has a stored entry that compares equal and has the same hash |
| `Entries.CollectKeepsHashesDistinct` | rust/src/compilation/database.rs:47 | with a hash at least as fine as the equality, no two stored entries share a hash |
| `Entries.CollectDistinct` | rust/src/compilation/database.rs:47 | collecting with the hash that agrees with the equality never stores two entries that compare equal |
| `Entries.CollectDistinctByInput` | rust/src/compilation/database.rs:70-72 | with a hash at least as fine as the equality, input whose hashes are pairwise different is collected unchanged and in order |
| `Entries.CollectedSet` | rust/src/compilation/database.rs:70-72 | the resulting set holds only input entries and, for every input entry, a member that compares equal with the same hash; with a hash at least as fine as the equality, no two members share a hash |
| `Aggregate.FailingIndices` | rust/src/compilation/database.rs:75-77 | the listed positions are strictly increasing, and each one is an element whose conversion fails |
| `Aggregate.FailingIndicesComplete` | rust/src/compilation/database.rs:75-77 | every element whose conversion fails has its position listed |
| `Aggregate.CollectAll` | rust/src/compilation/database.rs:70-72 | `collect::<Result<_>>` succeeds exactly when every element converts, and then holds every converted value, position by position |
| `Aggregate.CollectAllSucceedsIffNoFailing` | rust/src/compilation/database.rs:88-90 | a `collect::<Result<_>>` succeeds exactly when the list of failing positions is empty |
| `Aggregate.CollectAllFirstError` | rust/src/compilation/database.rs:88-90 | a failed `collect::<Result<_>>` carries the error of the first failing element |
| `Aggregate.ErrorsOfSingleFailure` | rust/src/compilation/database.rs:75-78 | when exactly one element fails, the gathered errors are that element's error alone |
| `Aggregate.ErrorsOfFailing` | rust/src/compilation/database.rs:75-79 | the errors gathered are as many as the failing elements, and the k-th is the error of the k-th failing element |
| `Aggregate.CollectAllSucceedsIffNoErrors` | rust/src/compilation/database.rs:73-75 | the first pass fails exactly when the second pass finds at least one error |
| `Aggregate.Join` | rust/src/compilation/database.rs:80 | joining no parts gives the empty string and one part gives that part |
| `Aggregate.JoinLength` | rust/src/compilation/database.rs:77-80 | the joined message is exactly as long as the error messages together plus one `", "` between each pair of neighbours |
| `Aggregate.JoinFromEitherEnd` | rust/src/compilation/database.rs:80 | the join agrees with the front-to-back reading: first part, separator, join of the rest |
| `Records.PathToString` | rust/src/compilation/database.rs:377-382 | `path_to_string` succeeds exactly for representable paths, with their string form; otherwise the error is the conversion message for that path |
| `Records.ConversionFailureNamesPath` | rust/src/compilation/database.rs:380 | the conversion message names the path exactly: reading the `{:?}` rendering back after the prefix gives the path's units |
| `Records.OptionalPathToString` | rust/src/compilation/database.rs:386-389 | an absent output converts to an absent output; a present one converts to its string form, or fails with the message for that path |
| `Records.From` | rust/src/compilation/database.rs:376-410 | `from` fails exactly when directory, file or a present output has no string form, with the message for the first such path; the command never causes failure; the record shape follows `command_as_array`; the record's strings are the paths' string forms; `arguments` is the command, or `command` is `join` of it |
| `Records.Into` | rust/src/compilation/database.rs:412-443 | an array record always converts with command equal to `arguments`; a string record converts exactly when `split` accepts its command line, and then the command is the split result; the entry's paths have the record's strings as their string forms, and output is present exactly when the record has one; a failure is the quote-mismatch message for that command line |
| `Records.QuoteMismatchNamesCommand` | rust/src/compilation/database.rs:439 | the quote-mismatch message names the command line exactly: reading the `{:?}` rendering back after the prefix gives the line |
| `Records.EntryOf` | rust/src/compilation/database.rs:415-423 | the entry built from a record's strings has those strings as the string forms of its paths, carries the command, and keeps output present exactly when given |
| `Records.IntoFromArray` | rust/src/compilation/database.rs:390-396 | saving a representable entry in the array shape and loading the record back gives the entry, output included |
| `Records.IntoFromString` | rust/src/compilation/database.rs:397-409 | the same round trip in the string shape, when `split` undoes `join` on the entry's command |
| `Records.FromIntoArray` | rust/src/compilation/database.rs:414-424 | loading an array record and saving it in the array shape gives the record back |
| `Records.FromIntoString` | rust/src/compilation/database.rs:425-437 | loading a string record and saving it in the string shape gives the record back, when `join` reproduces the command line that `split` accepted |
| `Database.LoadWith` | rust/src/compilation/database.rs:68-85 | load succeeds exactly when every record converts; an empty document loads to the empty set; a failure carries the `", "`-join of the gathered error messages, of which there is at least one |
| `Database.LoadSucceeds` | rust/src/compilation/database.rs:68-72 | with any hash, when every record converts the load succeeds, holds only converted records, and holds for every record an entry that compares equal to its conversion and has the same hash |
| `Database.LoadKeepsHashesDistinct` | rust/src/compilation/database.rs:47-72 | with a hash at least as fine as the equality, such as the derived one, no two entries of a loaded set share a hash |
| `Database.LoadKeepsEntriesThatCompareEqual` | rust/src/compilation/database.rs:28-72 | the load as written turns two records that differ only in output into a set of two entries that compare equal |
| `Database.LoadCorrectedDistinct` | rust/src/compilation/database.rs:36-47 | with the hash that agrees with the equality, a loaded set holds no two entries that compare equal |
| `Database.LoadCorrectedKeepsFirstOfEqual` | rust/src/compilation/database.rs:47-72 | with that hash, of two records that differ only in output, the entry of the first is kept |
| `Database.LoadConverted` | rust/src/compilation/database.rs:68-72 | a document whose records convert to entries with pairwise different derived hashes loads to exactly those entries |
| `Database.LoadTwoRecords` | rust/src/compilation/database.rs:68-72 | two records that convert to entries with different commands load to the set of both entries |
| `Database.FailingRecordsMessages` | rust/src/compilation/database.rs:73-81 | the messages a failed load joins are, in document order, one per failing record and nothing else; each failing record is a string record whose command `split` rejects, and its message is the quote-mismatch message for that command |
| `Database.LoadSingleBadRecord` | rust/src/compilation/database.rs:204-218 | one record with mismatched quotes fails the whole load, and the error is exactly that record's message |
| `Database.LoadStringCommand` | rust/src/compilation/database.rs:148-173 | the two string records of the test load to the two expected entries, output included, when `split` tokenizes their command lines at the spaces |
| `Database.LoadArrayCommand` | rust/src/compilation/database.rs:175-200 | the two array records of the test load to the two expected entries, output included |
| `Database.Save` | rust/src/compilation/database.rs:87-92 | save succeeds exactly when every entry is representable; on failure the file is left as it was and the error is that of the first failing entry; on success the file holds one record per entry, each the `from` conversion of that entry |
| `Database.SaveThenLoad` | rust/src/compilation/database.rs:221-260 | saving the entries of a set, which never holds two entries with the same derived hash, and loading the file back gives the same set, output included: always in the array shape, and in the string shape when `split` undoes `join` on every command |
| `Database.LoadThenSave` | rust/src/compilation/database.rs:68-92 | every entry that a load returns is representable, so saving what was loaded never fails, whatever the enumeration order and format |
| `Database.CollectOrReport` | rust/src/compilation/database.rs:68-81 | a single pass gives the same errors as the second pass, the same success condition as the first pass, and the same collected set |
| `Database.LoadOnePass` | rust/src/compilation/database.rs:68-85 | the one-pass load returns exactly what the two-pass `Load` returns |

## Left out

- File access in `inner::load` and `inner::save` (rust/src/compilation/database.rs:358-374):
  this is I/O. The file is modelled by its decoded content, so the `IoError` cases are not
  modelled. Nor is the loss of the old content when a truncating write later fails.
- JSON parsing and pretty-printing with `serde_json`, including which untagged shape a JSON
  object selects and the `FormatError` cases: this is a foreign library. Load starts from a
  decoded `seq<GenericEntry>`.
- `shellwords::split` and `shellwords::join`: their code is in an external crate. They are
  opaque function parameters, and their round trip is a hypothesis.
- UTF-8 decoding of an `OsStr`: a path is given already split into valid characters and
  invalid bytes. The model assumes that split is the decoder's: a `Raw` unit stands for a
  byte outside every valid UTF-8 sequence. The type also admits values no decoder yields,
  such as `Raw(0x2F)` or the two bytes of `é` as `Raw` units. For those, `ToStr` reports
  no string form, and `Components` does not treat `Raw(0x2F)` as a separator. Every path a
  load builds consists of `Char` units only.
- `DebugFormat.Quoted`: the `{:?}` rendering is modelled without two things. Rust writes
  non-printable and grapheme-extending characters as `\u{…}`, and this needs Unicode tables.
  `Path`'s rendering also escapes the single quote in some Rust versions.
- The error type of the crate's `Result` and its `.into()`/`to_string()` conversions: an
  error is modelled by its message text.
- `Entries.DerivedHash`: hashes are idealised as collision-free. Depending on the hash
  values, the real `HashSet` can still merge two entries that differ only in output.
- `Paths.Components`: models Unix paths only. Windows prefixes and `\` separators are
  not modelled. Its own contract states only the shape of the component list. Which
  components a path has is stated by `Paths.NormalizedKeepsPieces`,
  `Paths.ComponentsOfRender` and `Paths.SamePathIffNormalized`.
- `Database.LoadSucceeds`: does not state which of several equal entries the set keeps
  (`CollectWith` keeps the first one met).
- `Database::new` and the `path` field: a constructor with no logic.
- `src/intercept-libexec/src/libexec_a/Session.cc` and `src/environ.c` are not part of this
  model. They are environment lookup, storage and string-array plumbing built on functions
  that are not shown.

## Findings

| source | as written | input that shows it | evidently intended | confidence | as-written member | corrected member |
|---|---|---|---|---|---|---|
| rust/src/compilation/database.rs:28-47 | `Entry` derives `Hash` over directory, file, command and output, while `PartialEq` compares only directory, file and command. This breaks `Hash`'s rule that equal values hash equally, so the `HashSet` usually keeps both entries. | two records with the same directory, file and command, one without output and one with output | entries that compare equal hash equally, so only one of them stays in the set | high (not executed) | `Database.LoadKeepsEntriesThatCompareEqual` | `Database.LoadCorrectedDistinct` |

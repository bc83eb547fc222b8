/**
  The on-disk record shape (`inner::GenericEntry`) and the per-record converters between
  it and `Entry`: `inner::into` for load and `inner::from` for save.
 */
module Records {
  import opened Wrappers
  import opened Paths
  import opened DebugFormat
  import opened ShellWords
  import opened Entries

  /**
    One JSON record. The two shapes carry no tag: a `command` string selects
    `StringEntry`, an `arguments` array selects `ArrayEntry`.
   */
  datatype GenericEntry =
    | StringEntry(directory: string, file: string, command: string, output: Option<string>)
    | ArrayEntry(directory: string, file: string, arguments: seq<string>, output: Option<string>)

  /** Save-time choice of record shape. */
  datatype DatabaseFormat = DatabaseFormat(commandAsArray: bool)

  const QuoteMismatchPrefix := "Quotes are mismatch in "
  const ConversionPrefix := "Failed to convert to string "

  /** The load error for a command line whose quotes do not pair up. */
  function QuoteMismatch(command: string): string {
    QuoteMismatchPrefix + DebugStr(command)
  }

  /** The save error for a path without a string form. */
  function ConversionFailure(p: Path): string {
    ConversionPrefix + DebugPath(p)
  }

  /** Every path of the entry has a string form, so it can be saved. */
  predicate EntryRepresentable(e: Entry) {
    Representable(e.directory) && Representable(e.file)
    && (e.output.Some? ==> Representable(e.output.value))
  }

  /** `path_to_string` inside `inner::from`. */
  function PathToString(p: Path): (r: Result<string, string>)
    ensures r.Success? <==> Representable(p)
    ensures r.Success? ==> ToStr(p) == Some(r.value)
    ensures r.Failure? ==> r.error == ConversionFailure(p)
  {
    match ToStr(p)
    case Some(s) => Success(s)
    case None => Failure(ConversionFailure(p))
  }

  /** The save error names the offending path exactly: parsing it back gives the path. */
  lemma ConversionFailureNamesPath(p: Path)
    ensures Subject(ConversionPrefix, ConversionFailure(p)) == Some(p.units)
  {
    SubjectOfMessage(ConversionPrefix, p.units);
  }

  /** The optional output path of `inner::from`: `None` stays `None`. */
  function OptionalPathToString(o: Option<Path>): (r: Result<Option<string>, string>)
    ensures r.Success? <==> (o.Some? ==> Representable(o.value))
    ensures r.Success? ==> (r.value.Some? <==> o.Some?)
    ensures r.Success? && o.Some? ==> ToStr(o.value) == Some(r.value.value)
    ensures r.Failure? ==> r.error == ConversionFailure(o.value)
  {
    match o
    case None => Success(None)
    case Some(p) =>
      var s :- PathToString(p);
      Success(Some(s))
  }

  /**
    `inner::from`: directory, file and output are converted to strings in that order and
    the first that has no string form fails the conversion; the command never does. The
    record takes the array shape or the joined string shape as the format asks.
   */
  function From(e: Entry, format: DatabaseFormat, sh: Tokenizer): (r: Result<GenericEntry, string>)
    ensures r.Success? <==> EntryRepresentable(e)
    ensures !Representable(e.directory) ==> r == Failure(ConversionFailure(e.directory))
    ensures Representable(e.directory) && !Representable(e.file) ==> r == Failure(ConversionFailure(e.file))
    ensures Representable(e.directory) && Representable(e.file) && e.output.Some? && !Representable(e.output.value) ==>
              r == Failure(ConversionFailure(e.output.value))
    ensures r.Success? ==> (r.value.ArrayEntry? <==> format.commandAsArray)
    ensures r.Success? ==> ToStr(e.directory) == Some(r.value.directory) && ToStr(e.file) == Some(r.value.file)
    ensures r.Success? ==> (r.value.output.Some? <==> e.output.Some?)
    ensures r.Success? && e.output.Some? ==> ToStr(e.output.value) == Some(r.value.output.value)
    ensures r.Success? && format.commandAsArray ==> r.value.arguments == e.command
    ensures r.Success? && !format.commandAsArray ==> r.value.command == sh.join(e.command)
  {
    var directory :- PathToString(e.directory);
    var file :- PathToString(e.file);
    var output :- OptionalPathToString(e.output);
    if format.commandAsArray then
      Success(ArrayEntry(directory, file, e.command, output))
    else
      Success(StringEntry(directory, file, sh.join(e.command), output))
  }

  /**
    `inner::into`: an array record always converts; a string record converts exactly when
    its command line splits, and otherwise fails with a message naming that command.
   */
  function Into(g: GenericEntry, sh: Tokenizer): (r: Result<Entry, string>)
    ensures g.ArrayEntry? ==> r.Success? && r.value.command == g.arguments
    ensures g.StringEntry? ==> (r.Success? <==> sh.split(g.command).Some?)
    ensures g.StringEntry? && r.Success? ==> r.value.command == sh.split(g.command).value
    ensures r.Success? ==> ToStr(r.value.directory) == Some(g.directory) && ToStr(r.value.file) == Some(g.file)
    ensures r.Success? ==> (r.value.output.Some? <==> g.output.Some?)
    ensures r.Success? && g.output.Some? ==> ToStr(r.value.output.value) == Some(g.output.value)
    ensures r.Failure? ==> g.StringEntry? && r.error == QuoteMismatch(g.command)
  {
    match g
    case ArrayEntry(directory, file, arguments, output) =>
      Success(EntryOf(directory, file, arguments, output))
    case StringEntry(directory, file, command, output) =>
      match sh.split(command)
      case Some(arguments) =>
        Success(EntryOf(directory, file, arguments, output))
      case None => Failure(QuoteMismatch(command))
  }

  /** The load error names the offending command line exactly: parsing it back gives the line. */
  lemma QuoteMismatchNamesCommand(command: string)
    ensures Subject(QuoteMismatchPrefix, QuoteMismatch(command)) == Some(FromString(command).units)
  {
    SubjectOfMessage(QuoteMismatchPrefix, FromString(command).units);
  }

  /** The `Entry` that `inner::into` builds from a record's strings with `PathBuf::from`. */
  function EntryOf(directory: string, file: string, command: seq<string>, output: Option<string>): (e: Entry)
    ensures ToStr(e.directory) == Some(directory) && ToStr(e.file) == Some(file)
    ensures e.command == command
    ensures e.output.Some? <==> output.Some?
    ensures output.Some? ==> ToStr(e.output.value) == Some(output.value)
  {
    var e := Entry(FromString(directory), FromString(file), command, FromOptionalString(output));
    ToStrFromString(directory);
    ToStrFromString(file);
    if output.Some? then ToStrFromString(output.value); e else e
  }

  /** `inner::into` as a value, so that every aggregation over records uses the same converter. */
  function Decoder(sh: Tokenizer): GenericEntry -> Result<Entry, string> {
    g => Into(g, sh)
  }

  /** `inner::from` under a fixed format, as a value. */
  function Encoder(format: DatabaseFormat, sh: Tokenizer): Entry -> Result<GenericEntry, string> {
    e => From(e, format, sh)
  }

  /** Saving in the array shape and loading back gives the entry, output included. */
  lemma IntoFromArray(e: Entry, sh: Tokenizer)
    requires EntryRepresentable(e)
    ensures From(e, DatabaseFormat(true), sh).Success?
    ensures Into(From(e, DatabaseFormat(true), sh).value, sh) == Success(e)
  {
    FromStringToStr(e.directory);
    FromStringToStr(e.file);
    if e.output.Some? {
      FromStringToStr(e.output.value);
    }
  }

  /** The same through the string shape, when `split` undoes `join` on the entry's command. */
  lemma IntoFromString(e: Entry, sh: Tokenizer)
    requires EntryRepresentable(e)
    requires JoinRoundTrips(sh, e.command)
    ensures From(e, DatabaseFormat(false), sh).Success?
    ensures Into(From(e, DatabaseFormat(false), sh).value, sh) == Success(e)
  {
    FromStringToStr(e.directory);
    FromStringToStr(e.file);
    if e.output.Some? {
      FromStringToStr(e.output.value);
    }
  }

  /** Loading an array record and saving it in the array shape gives the record back. */
  lemma FromIntoArray(g: GenericEntry, sh: Tokenizer)
    requires g.ArrayEntry?
    ensures Into(g, sh).Success?
    ensures From(Into(g, sh).value, DatabaseFormat(true), sh) == Success(g)
  {
  }

  /** Loading a string record and saving it in the string shape gives the record back, when `join` reproduces the line. */
  lemma FromIntoString(g: GenericEntry, sh: Tokenizer)
    requires g.StringEntry?
    requires SplitRoundTrips(sh, g.command)
    ensures Into(g, sh).Success?
    ensures From(Into(g, sh).value, DatabaseFormat(false), sh) == Success(g)
  {
  }
}

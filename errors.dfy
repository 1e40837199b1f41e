/**
 * The error hierarchy of lib/flight-howto/errors.rb: each error class may define its own
 * exit code; a class without one takes its superclass's, and the root of the hierarchy
 * (FlightHowto::Error, whose superclass RuntimeError has no `exit_code`) falls back to 2.
 */
module Errors {
  import opened Wrappers

  /** The classes of the hierarchy; `BaseError` is FlightHowto::Error itself. */
  datatype ErrorClass =
    | BaseError
    | InternalError
    | GeneralError
    | InputError
    | InvalidFormatError
    | UnparseableMetadataError
    | InvalidMetadataError
    | InvalidEncodingError
    | FileUnreadableError
    | InteractiveOnly
    | MissingError

  /** Distance from the root of the hierarchy. */
  function Depth(c: ErrorClass): nat
  {
    match c
    case BaseError => 0
    case InternalError => 1
    case GeneralError => 1
    case InteractiveOnly => 3
    case _ => 2
  }

  /** The superclass, as far as it responds to `exit_code`. */
  function Superclass(c: ErrorClass): (p: Option<ErrorClass>)
    ensures p.Some? ==> Depth(p.value) < Depth(c)
    ensures p.None? <==> c == BaseError
  {
    match c
    case BaseError => None
    case InternalError => Some(BaseError)
    case GeneralError => Some(BaseError)
    case InteractiveOnly => Some(InputError)
    case _ => Some(GeneralError)
  }

  /** The `@exit_code` that `define_class` stores on the class, if any. */
  function OwnExitCode(c: ErrorClass): Option<nat>
  {
    match c
    case BaseError => None
    case InternalError => Some(1)
    case GeneralError => Some(2)
    case InputError => Some(3)
    case InvalidFormatError => Some(4)
    case UnparseableMetadataError => Some(5)
    case InvalidMetadataError => Some(6)
    case FileUnreadableError => Some(7)
    case InvalidEncodingError => Some(8)
    case InteractiveOnly => None
    case MissingError => Some(20)
  }

  /** `Error.exit_code`: the class's own code, else the superclass's, else 2. */
  function ClassExitCode(c: ErrorClass): nat
    decreases Depth(c)
  {
    match OwnExitCode(c)
    case Some(code) => code
    case None =>
      match Superclass(c)
      case Some(p) => ClassExitCode(p)
      case None => 2
  }

  /** The ancestor chain of a class, starting with the class itself. */
  function Ancestors(c: ErrorClass): (r: seq<ErrorClass>)
    ensures |r| == Depth(c) + 1 && r[0] == c && r[|r| - 1] == BaseError
    decreases Depth(c)
  {
    match Superclass(c)
    case Some(p) => [c] + Ancestors(p)
    case None => [c]
  }

  /** The first code defined along a chain of classes, 2 when none is. */
  function FirstCode(chain: seq<ErrorClass>): nat
  {
    if chain == [] then 2
    else match OwnExitCode(chain[0])
      case Some(code) => code
      case None => FirstCode(chain[1..])
  }

  /** The recursive lookup returns the code of the nearest class in the chain that defines one. */
  lemma {:induction false} ClassExitCodeIsNearestDefined(c: ErrorClass)
    ensures ClassExitCode(c) == FirstCode(Ancestors(c))
    ensures OwnExitCode(c).Some? ==> ClassExitCode(c) == OwnExitCode(c).value
    decreases Depth(c)
  {
    match Superclass(c)
    case Some(p) =>
      ClassExitCodeIsNearestDefined(p);
      assert Ancestors(c)[1..] == Ancestors(p);
    case None =>
  }

  /** The code table of the source. */
  lemma ExitCodeTable()
    ensures ClassExitCode(BaseError) == 2
    ensures ClassExitCode(InternalError) == 1
    ensures ClassExitCode(GeneralError) == 2
    ensures ClassExitCode(InputError) == 3
    ensures ClassExitCode(InvalidFormatError) == 4
    ensures ClassExitCode(UnparseableMetadataError) == 5
    ensures ClassExitCode(InvalidMetadataError) == 6
    ensures ClassExitCode(FileUnreadableError) == 7
    ensures ClassExitCode(InvalidEncodingError) == 8
    ensures ClassExitCode(InteractiveOnly) == 3
    ensures ClassExitCode(MissingError) == 20
  {
  }

  /** An error that was raised: its class and its message. */
  datatype Error = Error(kind: ErrorClass, message: string)
  {
    /** The instance's `exit_code` is its class's. */
    function ExitCode(): (code: nat)
      ensures code == FirstCode(Ancestors(kind))
    {
      ClassExitCodeIsNearestDefined(kind);
      ClassExitCode(kind)
    }
  }

  const InvalidFormatPrefix := "The file '"
  const InvalidFormatSuffix := "' appears to start with a metadata section (three or five dashes at the top) but it does not seem to be in the correct format."

  function InvalidFormat(filename: string): (e: Error)
    ensures e.kind == InvalidFormatError && e.ExitCode() == 4
    ensures var head := InvalidFormatPrefix + filename;
      head <= e.message && e.message[|head|..] == InvalidFormatSuffix
  {
    Error(InvalidFormatError, InvalidFormatPrefix + filename + InvalidFormatSuffix)
  }

  const UnparseablePrefix := "Could not parse metadata for "

  /** `error` is the message of the exception the decoder raised. */
  function UnparseableMetadata(filename: string, error: string): (e: Error)
    ensures e.kind == UnparseableMetadataError && e.ExitCode() == 5
    ensures var head := UnparseablePrefix + filename + ": ";
      head <= e.message && e.message[|head|..] == error
  {
    Error(UnparseableMetadataError, UnparseablePrefix + filename + ": " + error)
  }

  const InvalidMetadataPrefix := "The file "
  const InvalidMetadataMiddle := " has invalid metadata (expected key-value pairs, found "

  /** `klass` is the name of the class of the decoded value. */
  function InvalidMetadata(filename: string, klass: string): (e: Error)
    ensures e.kind == InvalidMetadataError && e.ExitCode() == 6
    ensures var head := InvalidMetadataPrefix + filename + InvalidMetadataMiddle;
      head <= e.message && e.message[|head|..] == klass + " instead)"
  {
    Error(InvalidMetadataError, InvalidMetadataPrefix + filename + InvalidMetadataMiddle + klass + " instead)")
  }

  const CouldNotRead := "Could not read "

  /** `encoding` is the name of the encoding the file was read in. */
  function InvalidEncoding(filename: string, encoding: string): (e: Error)
    ensures e.kind == InvalidEncodingError && e.ExitCode() == 8
    ensures var head := CouldNotRead + filename + " because the file is not valid ";
      head <= e.message && e.message[|head|..] == encoding + "."
  {
    Error(InvalidEncodingError, CouldNotRead + filename + " because the file is not valid " + encoding + ".")
  }

  /** `inspect` is the `inspect` text of the exception the read raised. */
  function FileUnreadable(filename: string, inspect: string): (e: Error)
    ensures e.kind == FileUnreadableError && e.ExitCode() == 7
    ensures var head := CouldNotRead + filename + ": ";
      head <= e.message && e.message[|head|..] == inspect
  {
    Error(FileUnreadableError, CouldNotRead + filename + ": " + inspect)
  }

  const InteractiveOnlyMessage := "This command requires an interactive terminal"

  /** `InteractiveOnly.new(msg = MSG)`. */
  function InteractiveOnlyError(msg: Option<string>): (e: Error)
    ensures e.kind == InteractiveOnly && e.ExitCode() == 3
    ensures msg.None? ==> e.message == InteractiveOnlyMessage
    ensures msg.Some? ==> e.message == msg.value
  {
    Error(InteractiveOnly, if msg.Some? then msg.value else InteractiveOnlyMessage)
  }
}

/**
  Command validation: the closed command kind `CommandType` and the record
  `CommandDTO` with its root validator (src/flashlight_state.py:14-33).

  Parsing JSON text into a field record is done by a library and is not
  modelled: it is the parameter `decode` of `ParseRaw`, which yields the
  decoded fields or `None` for text that is not a command object.
*/
module Commands {
  import opened Base

  /** The three command kinds. */
  datatype CommandType = ON | OFF | COLOR {
    /** The kind's value; with `use_enum_values` a validated record stores this string. */
    function Value(): string {
      match this
      case ON => "ON"
      case OFF => "OFF"
      case COLOR => "COLOR"
    }
  }

  /** Resolves a string to the command kind whose value it is, if any. */
  function ParseCommandType(s: string): (r: Option<CommandType>)
    ensures r.Some? ==> r.value.Value() == s
    ensures r.None? <==> forall t: CommandType :: t.Value() != s
  {
    if s == "ON" then Some(ON)
    else if s == "OFF" then Some(OFF)
    else if s == "COLOR" then Some(COLOR)
    else None
  }

  /** The fields of one decoded JSON object, before validation. */
  datatype RawCommand = RawCommand(command: string, metadata: Option<int>)

  /** A command record; `command` holds the kind's string value. */
  datatype CommandDTO = CommandDTO(command: string, metadata: Option<int>)

  /** Why a frame was rejected; each is a `ValidationError` in the source. */
  datatype ValidationError =
    | NotACommandObject
    | UnknownCommand(command: string)
    | MissingColor

  /** What the root validator guarantees of every record that exists. */
  predicate HasColorIfColor(m: CommandDTO) {
    m.command == COLOR.Value() ==> m.metadata.Some?
  }

  /** A record that passed validation: a known kind, and a colour for COLOR. */
  predicate IsValid(m: CommandDTO) {
    ParseCommandType(m.command).Some? && HasColorIfColor(m)
  }

  /** Field validation of `command` followed by the root validator on `metadata`. */
  function Validate(raw: RawCommand): (r: Result<CommandDTO, ValidationError>)
    ensures r.Success? <==>
              ParseCommandType(raw.command).Some? &&
              (raw.command == COLOR.Value() ==> raw.metadata.Some?)
    ensures r.Success? ==> r.value == CommandDTO(raw.command, raw.metadata) && IsValid(r.value)
    ensures ParseCommandType(raw.command).None? ==> r == Failure(UnknownCommand(raw.command))
  {
    match ParseCommandType(raw.command)
    case None => Failure(UnknownCommand(raw.command))
    case Some(t) =>
      if t == COLOR && raw.metadata.None? then Failure(MissingColor)
      else Success(CommandDTO(t.Value(), raw.metadata))
  }

  /** `CommandDTO.parse_raw`: decode the frame's text, then validate the fields. */
  function ParseRaw(frame: string, decode: string -> Option<RawCommand>): (r: Result<CommandDTO, ValidationError>)
    ensures r.Success? ==> IsValid(r.value)
    ensures decode(frame).None? ==> r == Failure(NotACommandObject)
    ensures decode(frame).Some? ==> r == Validate(decode(frame).value)
  {
    match decode(frame)
    case None => Failure(NotACommandObject)
    case Some(raw) => Validate(raw)
  }

  /** A COLOR command passes validation exactly when its metadata is present. */
  lemma ColorNeedsMetadata(metadata: Option<int>)
    ensures Validate(RawCommand("COLOR", metadata)).Success? <==> metadata.Some?
    ensures metadata.None? ==> Validate(RawCommand("COLOR", metadata)) == Failure(MissingColor)
  {
  }

  /** ON and OFF pass validation whether or not metadata is present, and keep it as given. */
  lemma OnOffAcceptAnyMetadata(t: CommandType, metadata: Option<int>)
    requires t != COLOR
    ensures Validate(RawCommand(t.Value(), metadata)) == Success(CommandDTO(t.Value(), metadata))
  {
  }

  /** Only the three kinds' values are accepted as a command. */
  lemma KindIsClosed(raw: RawCommand)
    requires raw.command != "ON" && raw.command != "OFF" && raw.command != "COLOR"
    ensures Validate(raw) == Failure(UnknownCommand(raw.command))
  {
  }
}

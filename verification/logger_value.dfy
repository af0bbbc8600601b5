/** One log event: its level, its sanitised message and its creation date. */
module LoggerValue {
  import opened Results

  /** Messages longer than this many characters are cut. */
  const MessageLimit: nat := 1000

  /** The marker appended to a cut message. */
  const Ellipsis: string := "..."

  /** The longest message ValidateMessage can return. */
  const MaxValidatedLength: nat := MessageLimit + |Ellipsis|

  function Min(a: int, b: int): int
  {
    if a <= b then a else b
  }

  /** The two log levels; Swift backs them with Int raw values. */
  datatype Level = Verbose | Error

  /** The integer a level is persisted as. */
  function RawValue(level: Level): (raw: int)
    ensures 0 <= raw <= 1
    ensures raw == 0 <==> level == Verbose
  {
    match level
    case Verbose => 0
    case Error => 1
  }

  /** Swift's synthesised failable `init?(rawValue:)` of an Int-backed enum. */
  function LevelFromRaw(raw: int): (r: Option<Level>)
    ensures r.Some? <==> raw == 0 || raw == 1
  {
    if raw == 0 then Some(Verbose)
    else if raw == 1 then Some(Error)
    else None
  }

  /** Persisting a level as its raw value loses nothing, and only raw values decode. */
  lemma RawValueRoundTrip(level: Level, raw: int)
    ensures LevelFromRaw(RawValue(level)) == Some(level)
    ensures LevelFromRaw(raw) == Some(level) ==> RawValue(level) == raw
  {
  }

  /** The fixed display name of a level. */
  function LevelName(level: Level): (name: string)
    ensures name == "VERBOSE" <==> level == Verbose
    ensures name == "ERROR" <==> level == Error
  {
    match level
    case Verbose => "VERBOSE"
    case Error => "ERROR"
  }

  /** Distinct levels are displayed under distinct names. */
  lemma LevelNameInjective(a: Level, b: Level)
    ensures LevelName(a) == LevelName(b) <==> a == b
  {
  }

  /** The messages ValidateMessage leaves unchanged: short ones, and ones
      that already are a cut message (1000 characters and the marker). */
  predicate IsValidated(m: string)
  {
    |m| <= MessageLimit || (|m| == MaxValidatedLength && m[MessageLimit..] == Ellipsis)
  }

  /** Cuts a message longer than 1000 characters to its first 1000 characters
      followed by the marker; shorter messages pass through. */
  function ValidateMessage(message: string): (r: string)
    ensures |message| <= MessageLimit ==> r == message
    ensures |message| > MessageLimit ==> |r| == MaxValidatedLength && r[MessageLimit..] == Ellipsis
    ensures |r| <= MaxValidatedLength
    ensures r[..Min(|message|, MessageLimit)] == message[..Min(|message|, MessageLimit)]
    ensures IsValidated(r)
  {
    if |message| > MessageLimit then message[..MessageLimit] + Ellipsis else message
  }

  /** The fixed points of ValidateMessage are exactly the validated messages. */
  lemma {:induction false} ValidateMessageFixedPoints(m: string)
    ensures ValidateMessage(m) == m <==> IsValidated(m)
  {
    if |m| > MessageLimit && IsValidated(m) {
      assert m == m[..MessageLimit] + m[MessageLimit..];
    }
  }

  /** Validating twice is validating once. */
  lemma {:induction false} ValidateMessageIdempotent(m: string)
    ensures ValidateMessage(ValidateMessage(m)) == ValidateMessage(m)
  {
    ValidateMessageFixedPoints(ValidateMessage(m));
  }

  /** A message of 1050 'A's becomes 1000 'A's followed by the marker. */
  lemma LongMessageExample()
    ensures ValidateMessage(seq(1050, _ => 'A')) == seq(1000, _ => 'A') + "..."
    ensures |ValidateMessage(seq(1050, _ => 'A'))| == 1003
  {
    var m: string := seq(1050, _ => 'A');
    assert m[..MessageLimit] == seq(1000, _ => 'A');
  }

  /** A log event. Dates are modelled as integers. */
  datatype Value = Value(creationDate: int, level: Level, message: string)

  /** `init(level:message:)`: the clock reading `now` becomes the date and the
      message is validated. */
  function NewValue(level: Level, message: string, now: int): (v: Value)
    ensures v.creationDate == now && v.level == level
    ensures IsValidated(v.message)
    ensures |message| <= MessageLimit ==> v.message == message
    ensures |message| > MessageLimit ==> |v.message| == MaxValidatedLength
    ensures v.message[..Min(|message|, MessageLimit)] == message[..Min(|message|, MessageLimit)]
  {
    Value(now, level, ValidateMessage(message))
  }

  /** `init(level:message:date:)`, for tests: date and message are stored as given. */
  function NewValueWithDate(level: Level, message: string, date: int): (v: Value)
    ensures v.creationDate == date && v.level == level && v.message == message
  {
    Value(date, level, message)
  }

  /** The two initialisers build the same value exactly when the message is
      already validated; otherwise the dated one skips validation. */
  lemma {:induction false} InitialisersAgreeIffValidated(level: Level, message: string, date: int)
    ensures NewValue(level, message, date) == NewValueWithDate(level, message, date)
            <==> IsValidated(message)
  {
    ValidateMessageFixedPoints(message);
  }

  /** The dated initialiser keeps a 1001-character message whole, so a
      value it builds can break the 1000-character rule. */
  lemma DatedInitialiserSkipsValidation()
    ensures var v := NewValueWithDate(Error, seq(1001, _ => 'A'), 0);
            |v.message| == 1001 && !IsValidated(v.message)
  {
  }

  /** `getCurrentLevelName`: the display name of the value's own level. */
  function CurrentLevelName(v: Value): (name: string)
    ensures name == LevelName(v.level)
    ensures name == "ERROR" <==> v.level == Error
  {
    LevelName(v.level)
  }
}

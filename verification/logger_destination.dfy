/** Destinations: render a log event as text and emit it. */
module LoggerDestination {
  import opened LoggerValue

  /** Rendering of a date with the pattern "y-MM-dd H:m:ss.SSSS"; the
      formatter itself is not modelled and is passed in. */
  type DateRenderer = int -> string

  /** The base class and its one subclass, the console destination. */
  datatype Kind = Base | Console

  /** A destination; its private serial queue is not modelled. */
  datatype Destination = Destination(kind: Kind, identification: string, asynchronously: bool)

  /** `LoggerDestination(identification:)`: synchronous by default. */
  function NewDestination(identification: string): (d: Destination)
    ensures d.kind == Base && d.identification == identification
    ensures !d.asynchronously
  {
    Destination(Base, identification, false)
  }

  /** `ConsoleDestination(identifier:)`: inherits the synchronous default. */
  function NewConsoleDestination(identifier: string): (d: Destination)
    ensures d.kind == Console && d.identification == identifier
    ensures !d.asynchronously
  {
    Destination(Console, identifier, false)
  }

  /** Everything a formatted event holds before its message. */
  function Header(render: DateRenderer, date: int, level: Level): string
  {
    "[" + render(date) + " - " + LevelName(level) + " - "
  }

  /** `formatLog`: "[<date> - <LEVEL> - <message>]". */
  function FormatLog(render: DateRenderer, v: Value): (r: string)
    ensures |r| == |render(v.creationDate)| + |LevelName(v.level)| + |v.message| + 8
    ensures r[0] == '[' && r[|r| - 1] == ']'
    ensures r[1..1 + |render(v.creationDate)|] == render(v.creationDate)
    ensures r[|r| - 1 - |v.message|..|r| - 1] == v.message
    ensures r[1 + |render(v.creationDate)|..|r| - 1 - |v.message|] == " - " + LevelName(v.level) + " - "
  {
    var d := render(v.creationDate);
    var h := Header(render, v.creationDate, v.level);
    var r := h + v.message + "]";
    assert r[1..1 + |d|] == d;
    assert r[|h|..|r| - 1] == v.message;
    assert r[1 + |d|..|h|] == " - " + LevelName(v.level) + " - ";
    r
  }

  /** Two events with the same date and level format alike only if their
      messages are equal: the message can be read back from the text. */
  lemma {:induction false} FormatLogMessageInjective(render: DateRenderer, a: Value, b: Value)
    requires a.creationDate == b.creationDate && a.level == b.level
    requires FormatLog(render, a) == FormatLog(render, b)
    ensures a.message == b.message
  {
    var r := FormatLog(render, a);
    assert |a.message| == |b.message|;
    assert a.message == r[|r| - 1 - |a.message|..|r| - 1];
  }

  /** Two events with the same date format differently when their levels
      differ: the first letter of the level name follows the date. */
  lemma {:induction false} FormatLogLevelInjective(render: DateRenderer, a: Value, b: Value)
    requires a.creationDate == b.creationDate && a.level != b.level
    ensures FormatLog(render, a) != FormatLog(render, b)
  {
    var d := render(a.creationDate);
    var k := 1 + |d| + 3;
    var ra, rb := FormatLog(render, a), FormatLog(render, b);
    assert ra[k] == LevelName(a.level)[0];
    assert rb[k] == LevelName(b.level)[0];
  }

  /** An error event "Message" formats as "[<date> - ERROR - Message]". */
  lemma FormatErrorExample(render: DateRenderer, date: int)
    ensures FormatLog(render, Value(date, Error, "Message"))
            == "[" + render(date) + " - ERROR - Message]"
  {
  }

  /** `emit`: the console override returns what the base one does (it also
      prints it, which is not modelled), so both kinds return the formatted
      event. */
  function Emit(d: Destination, render: DateRenderer, v: Value): (r: string)
    ensures r == FormatLog(render, v)
  {
    FormatLog(render, v)
  }
}

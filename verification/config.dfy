/**
 * The client's configuration resolver (get_config): built-in defaults, then
 * the optional Lua file's `host` and `port` globals, then the command-line
 * flags, highest precedence last; `--help` as the first argument ends the
 * process before any of it.
 *
 * Evaluating the Lua file is taken as an input (`LuaOutcome`); the argument
 * vector is `argv` itself, program name included, walked by index.
 */
module ClientConfig {
  import opened CStrings

  datatype Option<T> = None | Some(value: T)

  /** The resolved settings of one run: where to connect and what to send. */
  datatype Config = Config(host: string, port: string, command: string, route: string, payload: string)

  /** The settings before any Lua file or flag is consulted. */
  const Defaults := Config("localhost", "9090", "list_commands", "*", "")

  /** The Lua copies keep at most this many bytes (buffers of 256 and 6 bytes); each `char` is one byte. */
  const HostCapacity := 255
  const PortCapacity := 5

  /**
   * What evaluating the Lua file yields: whether loading and running it both
   * succeeded and, for each of the globals `host` and `port`, its text when
   * the global holds a Lua string (any other type counts as absent).
   */
  datatype LuaOutcome = LuaOutcome(ran: bool, host: Option<string>, port: Option<string>)

  /** How resolution ends: the help request, a configuration, or a flag left without its value. */
  datatype Resolution = Help | Resolved(config: Config) | MissingValue(flag: string)

  datatype Field = Host | Port | Command | Route | Payload

  function Get(c: Config, f: Field): string
  {
    match f
    case Host => c.host
    case Port => c.port
    case Command => c.command
    case Route => c.route
    case Payload => c.payload
  }

  /** `c` with field `f` replaced by `v`. */
  function Set(c: Config, f: Field, v: string): (r: Config)
    ensures Get(r, f) == v
    ensures forall g :: g != f ==> Get(r, g) == Get(c, g)
  {
    match f
    case Host => c.(host := v)
    case Port => c.(port := v)
    case Command => c.(command := v)
    case Route => c.(route := v)
    case Payload => c.(payload := v)
  }

  function LongFlag(f: Field): string
  {
    match f
    case Host => "--host"
    case Port => "--port"
    case Command => "--command"
    case Route => "--route"
    case Payload => "--payload"
  }

  function ShortFlag(f: Field): string
  {
    match f
    case Host => "-h"
    case Port => "-p"
    case Command => "-c"
    case Route => "-r"
    case Payload => "-l"
  }

  /** The field a command-line token sets when it stands in flag position, if any. */
  function FlagField(token: string): (r: Option<Field>)
    ensures forall f :: r == Some(f) <==> token == LongFlag(f) || token == ShortFlag(f)
  {
    if token == "--host" || token == "-h" then Some(Host)
    else if token == "--port" || token == "-p" then Some(Port)
    else if token == "--command" || token == "-c" then Some(Command)
    else if token == "--route" || token == "-r" then Some(Route)
    else if token == "--payload" || token == "-l" then Some(Payload)
    else None
  }

  /**
   * A Lua string copied into a buffer of `cap + 1` characters with
   * `strncpy` and terminated at index `cap`, as the buffer then reads.
   */
  function LuaCopy(s: string, cap: nat): (r: string)
    ensures r == Truncate(CString(s), cap)
  {
    CopyThenTerminate(s, cap);
    CString(Strncpy(s, cap + 1)[cap := NUL])
  }

  /** Sizes of the two static buffers the Lua copies go to. */
  const HostBufferSize := HostCapacity + 1
  const PortBufferSize := PortCapacity + 1
  /** The length both Lua copies pass to strncpy, as written. */
  const LuaCopyLength := 256

  /**
   * The characters the Lua port copy stores from the start of the port
   * buffer, as written: strncpy with length 256, which always writes all 256
   * (it pads with NUL).
   */
  function PortWriteAsWritten(s: string): (w: seq<char>)
    ensures |w| == LuaCopyLength
    ensures CString(w) == Truncate(CString(s), LuaCopyLength)
  {
    StrncpyReads(s, LuaCopyLength);
    Strncpy(s, LuaCopyLength)
  }

  /**
   * As written, the port copy overruns its 6-character buffer by 250
   * characters for every Lua port string, "9090" included.
   */
  lemma PortCopyOverflows(s: string)
    ensures |PortWriteAsWritten(s)| - PortBufferSize == 250
    ensures |PortWriteAsWritten("9090")| > PortBufferSize
  {
  }

  /**
   * The copies the model uses write exactly their buffers: the host copy as
   * written (255 characters and the terminator in 256), and the port copy
   * with strncpy length 6 instead of 256; each then reads as its string cut
   * to the buffer's capacity.
   */
  lemma LuaCopiesFit(s: string)
    ensures |Strncpy(s, HostCapacity + 1)| == HostBufferSize
    ensures |Strncpy(s, PortCapacity + 1)| == PortBufferSize
    ensures LuaCopy(s, HostCapacity) == Truncate(CString(s), HostCapacity)
    ensures LuaCopy(s, PortCapacity) == Truncate(CString(s), PortCapacity)
    ensures |LuaCopy(s, PortCapacity)| <= PortCapacity
  {
  }

  /** The Lua layer: overrides `host` and `port` only when the file ran and the global is a string. */
  function ApplyLua(c: Config, lua: LuaOutcome): (r: Config)
    ensures r.host == if lua.ran && lua.host.Some? then Truncate(CString(lua.host.value), HostCapacity) else c.host
    ensures r.port == if lua.ran && lua.port.Some? then Truncate(CString(lua.port.value), PortCapacity) else c.port
    ensures r.command == c.command && r.route == c.route && r.payload == c.payload
  {
    if !lua.ran then c
    else
      var withHost := if lua.host.Some? then c.(host := LuaCopy(lua.host.value, HostCapacity)) else c;
      if lua.port.Some? then withHost.(port := LuaCopy(lua.port.value, PortCapacity)) else withHost
  }

  /**
   * The argument walk over the tokens after the program name: a recognised
   * flag takes the token after it as its value, whatever that token looks
   * like; any other token is skipped.
   */
  function Walk(args: seq<string>, c: Config): Resolution
    decreases |args|
  {
    if args == [] then Resolved(c)
    else match FlagField(args[0])
      case None => Walk(args[1..], c)
      case Some(f) => if |args| == 1 then MissingValue(args[0]) else Walk(args[2..], Set(c, f, args[1]))
  }

  predicate HelpRequested(argv: seq<string>)
  {
    |argv| > 1 && argv[1] == "--help"
  }

  /** The configuration get_config produces for `argv` and the Lua outcome. */
  function Resolve(argv: seq<string>, lua: LuaOutcome): Resolution
    requires |argv| >= 1
  {
    if HelpRequested(argv) then Help
    else Walk(argv[1..], ApplyLua(Defaults, lua))
  }

  /** get_config: defaults, then the Lua layer, then the flag walk over `argv`. */
  method GetConfig(argv: seq<string>, lua: LuaOutcome) returns (r: Resolution)
    requires |argv| >= 1
    ensures r == Resolve(argv, lua)
  {
    if HelpRequested(argv) {
      return Help;
    }

    var c := Defaults;

    if lua.ran {
      if lua.host.Some? {
        c := c.(host := LuaCopy(lua.host.value, HostCapacity));
      }
      if lua.port.Some? {
        c := c.(port := LuaCopy(lua.port.value, PortCapacity));
      }
    }

    var i := 1;
    while i < |argv|
      invariant 1 <= i <= |argv|
      invariant Walk(argv[i..], c) == Resolve(argv, lua)
    {
      var token := argv[i];
      match FlagField(token) {
        case None =>
        case Some(f) =>
          if i + 1 == |argv| {
            return MissingValue(token);
          }
          i := i + 1;
          c := Set(c, f, argv[i]);
      }
      i := i + 1;
    }
    r := Resolved(c);
  }

  /** The walk never asks for help: `--help` past the first argument is skipped or taken as a value. */
  lemma {:induction false} WalkNeverHelps(args: seq<string>, c: Config)
    ensures !Walk(args, c).Help?
    decreases |args|
  {
    if args != [] {
      match FlagField(args[0])
      case None => WalkNeverHelps(args[1..], c);
      case Some(f) =>
        if |args| > 1 {
          WalkNeverHelps(args[2..], Set(c, f, args[1]));
        }
    }
  }

  /** The process exits for help exactly when the first argument is `--help`. */
  lemma HelpOnlyFirst(argv: seq<string>, lua: LuaOutcome)
    requires |argv| >= 1
    ensures Resolve(argv, lua) == Help <==> |argv| > 1 && argv[1] == "--help"
  {
    if !HelpRequested(argv) {
      WalkNeverHelps(argv[1..], ApplyLua(Defaults, lua));
    }
  }

  /** Walking a prefix that resolves, then the rest, is walking the whole: the walk composes. */
  lemma {:induction false} WalkAppend(args: seq<string>, more: seq<string>, c: Config)
    requires Walk(args, c).Resolved?
    ensures Walk(args + more, c) == Walk(more, Walk(args, c).config)
    decreases |args|
  {
    if args == [] {
      assert args + more == more;
    } else {
      assert (args + more)[0] == args[0];
      match FlagField(args[0])
      case None =>
        assert (args + more)[1..] == args[1..] + more;
        WalkAppend(args[1..], more, c);
      case Some(f) =>
        assert |args| > 1;
        assert (args + more)[1] == args[1];
        assert (args + more)[2..] == args[2..] + more;
        WalkAppend(args[2..], more, Set(c, f, args[1]));
    }
  }

  /** Tokens none of which is a recognised flag leave the configuration as it was. */
  lemma {:induction false} WalkWithoutFlags(args: seq<string>, c: Config)
    requires forall i :: 0 <= i < |args| ==> FlagField(args[i]).None?
    ensures Walk(args, c) == Resolved(c)
    decreases |args|
  {
    if args != [] {
      WalkWithoutFlags(args[1..], c);
    }
  }

  /**
   * With no recognised flag on the command line, the result is the defaults
   * with the Lua layer applied.
   */
  lemma NoFlagsKeepsLuaLayer(argv: seq<string>, lua: LuaOutcome)
    requires |argv| >= 1 && !HelpRequested(argv)
    requires forall i :: 1 <= i < |argv| ==> FlagField(argv[i]).None?
    ensures Resolve(argv, lua) == Resolved(ApplyLua(Defaults, lua))
  {
    var args := argv[1..];
    forall i | 0 <= i < |args| ensures FlagField(args[i]).None? {
      assert args[i] == argv[i + 1];
    }
    WalkWithoutFlags(args, ApplyLua(Defaults, lua));
  }

  /**
   * The last occurrence of a flag wins: appending a flag and its value to a
   * command line that resolves sets that field to the value, over every
   * earlier layer, and leaves the other fields as they were.
   */
  lemma LastOccurrenceWins(argv: seq<string>, lua: LuaOutcome, flag: string, v: string, f: Field)
    requires |argv| >= 1 && Resolve(argv, lua).Resolved?
    requires FlagField(flag) == Some(f)
    ensures Resolve(argv + [flag, v], lua).Resolved?
    ensures Get(Resolve(argv + [flag, v], lua).config, f) == v
    ensures forall g :: g != f ==> Get(Resolve(argv + [flag, v], lua).config, g) == Get(Resolve(argv, lua).config, g)
  {
    var full := argv + [flag, v];
    assert !HelpRequested(full) by {
      if |argv| == 1 {
        assert full[1] == flag;
      } else {
        assert full[1] == argv[1];
      }
    }
    assert full[1..] == argv[1..] + [flag, v];
    var c0 := ApplyLua(Defaults, lua);
    WalkAppend(argv[1..], [flag, v], c0);
    assert [flag, v][2..] == [];
  }

  /**
   * A recognised flag as the last argument has no value to take: resolution
   * fails naming that flag.
   */
  lemma TrailingFlagFails(argv: seq<string>, lua: LuaOutcome, flag: string)
    requires |argv| >= 1 && Resolve(argv, lua).Resolved?
    requires FlagField(flag).Some?
    ensures Resolve(argv + [flag], lua) == MissingValue(flag)
  {
    var full := argv + [flag];
    assert !HelpRequested(full) by {
      if |argv| == 1 {
        assert full[1] == flag;
      } else {
        assert full[1] == argv[1];
      }
    }
    assert full[1..] == argv[1..] + [flag];
    WalkAppend(argv[1..], [flag], ApplyLua(Defaults, lua));
  }

  /**
   * A flag takes the next token as its value even when that token is itself
   * a flag or `--help`; the walk resumes after it.
   */
  lemma FlagTakesNextToken(args: seq<string>, c: Config, f: Field)
    requires |args| >= 2 && FlagField(args[0]) == Some(f)
    ensures Walk(args, c) == Walk(args[2..], Set(c, f, args[1]))
    ensures Walk(args[..2], c) == Resolved(Set(c, f, args[1]))
  {
    assert args[..2][2..] == [];
  }

  /**
   * Nothing makes host or port non-empty: an empty flag value, an empty Lua
   * string, or a Lua string that starts with NUL each leave it empty.
   */
  lemma EmptyHostAndPortReachable(lua: LuaOutcome)
    ensures Resolve(["ducq", "-h", "", "--port", ""], lua) == Resolved(ApplyLua(Defaults, lua).(host := "", port := ""))
    ensures ApplyLua(Defaults, LuaOutcome(true, Some(""), Some("\09090"))).host == ""
    ensures ApplyLua(Defaults, LuaOutcome(true, Some(""), Some("\09090"))).port == ""
  {
    var argv := ["ducq", "-h", "", "--port", ""];
    var c := ApplyLua(Defaults, lua);
    assert argv[1..] == ["-h", "", "--port", ""];
    assert Walk(argv[1..], c) == Walk(["--port", ""], Set(c, Host, ""));
    assert Walk(["--port", ""], Set(c, Host, "")) == Walk([], Set(Set(c, Host, ""), Port, ""));
    assert CString("\09090") == "";
  }
}

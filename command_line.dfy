/**
 * The command-line options of the application: -h or --help, -f with the
 * module of the computer player, -0 / -2 for the number of human players,
 * -l with the search levels and -c with the two colours.
 */
module CommandLine {
  import opened Outcomes
  import opened Texts

  const DefaultAiFile: string := "othelloplayer"
  const DefaultAiLevel: int := 4

  /** The parsed options: help, the two player modules (None for a human), the two levels, the colours. */
  datatype Options = Options(help: bool, players: (Option<string>, Option<string>), levels: (int, int),
                             colors: Option<seq<string>>)

  /**
   * Why the arguments could not be parsed: an option is the last argument and
   * its value is missing (IndexError), or a level is not an integer (ValueError).
   */
  datatype ArgError = MissingValue(flag: string) | NotAnInteger(text: string)

  /** list.index: the position of the first occurrence of a. */
  function IndexOf(args: seq<string>, a: string): (i: nat)
    requires a in args
    ensures i < |args| && args[i] == a && a !in args[..i]
  {
    if args[0] == a then 0
    else
      var i := IndexOf(args[1..], a);
      assert args[1..][..i] == args[1..i + 1];
      1 + i
  }

  /** The argument after the first occurrence of flag, or MissingValue when flag comes last. */
  function ValueAfter(args: seq<string>, flag: string): (r: Result<string, ArgError>)
    requires flag in args
    ensures r.Ok? <==> IndexOf(args, flag) + 1 < |args|
    ensures r.Ok? ==> r.value == args[IndexOf(args, flag) + 1]
    ensures r.Err? ==> r.error == MissingValue(flag)
  {
    var i := IndexOf(args, flag);
    if i + 1 < |args| then Ok(args[i + 1]) else Err(MissingValue(flag))
  }

  /** The characters that rstrip(".py") removes from the end of the module name. */
  const PyChars: set<char> := {'.', 'p', 'y'}

  /** The module of the computer player: the value of -f with rstrip(".py") applied, or the default. */
  function AiFile(args: seq<string>): Result<string, ArgError>
  {
    if "-f" in args then
      match ValueAfter(args, "-f")
      case Err(e) => Err(e)
      case Ok(v) => Ok(RStrip(v, PyChars))
    else Ok(DefaultAiFile)
  }

  /** -0: two computer players; otherwise -2: two humans; otherwise a human and a computer. */
  function Players(args: seq<string>, ai: string): (Option<string>, Option<string>)
  {
    if "-0" in args then (Some(ai), Some(ai))
    else if "-2" in args then (None, None)
    else (None, Some(ai))
  }

  /** The value of -l split on commas: one level for both players, or the first two levels. */
  function Levels(args: seq<string>): Result<(int, int), ArgError>
  {
    if "-l" in args then
      match ValueAfter(args, "-l")
      case Err(e) => Err(e)
      case Ok(v) =>
        var pieces := Split(v, ',');
        match ParseInt(pieces[0])
        case Err(t) => Err(NotAnInteger(t))
        case Ok(a) =>
          if |pieces| == 1 then Ok((a, a))
          else
            match ParseInt(pieces[1])
            case Err(t) => Err(NotAnInteger(t))
            case Ok(b) => Ok((a, b))
    else Ok((DefaultAiLevel, DefaultAiLevel))
  }

  /** The value of -c split on commas, or None. */
  function ColorNames(args: seq<string>): Result<Option<seq<string>>, ArgError>
  {
    if "-c" in args then
      match ValueAfter(args, "-c")
      case Err(e) => Err(e)
      case Ok(v) => Ok(Some(Split(v, ',')))
    else Ok(None)
  }

  /**
   * The options in the order they are read: help, -f, the players, -l, -c;
   * the first failing read decides the error.
   */
  function ParseCommandLineArgs(args: seq<string>): (r: Result<Options, ArgError>)
    ensures r.Ok? ==> (r.value.help <==> "-h" in args || "--help" in args)
    ensures r.Err? ==> r.error in {MissingValue("-f"), MissingValue("-l"), MissingValue("-c")} || r.error.NotAnInteger?
    ensures r.Err? <==> ("-f" in args && IndexOf(args, "-f") == |args| - 1)
                        || ("-l" in args && IndexOf(args, "-l") == |args| - 1)
                        || ("-c" in args && IndexOf(args, "-c") == |args| - 1)
                        || ("-l" in args && IndexOf(args, "-l") < |args| - 1
                            && var pieces := Split(args[IndexOf(args, "-l") + 1], ',');
                               ParseInt(pieces[0]).Err? || (|pieces| > 1 && ParseInt(pieces[1]).Err?))
    ensures r.Ok? ==> && AiFile(args).Ok? && Levels(args).Ok? && ColorNames(args).Ok?
                      && r.value.players == Players(args, AiFile(args).value)
                      && r.value.levels == Levels(args).value
                      && r.value.colors == ColorNames(args).value
  {
    var help := "-h" in args || "--help" in args;
    match AiFile(args)
    case Err(e) => Err(e)
    case Ok(ai) =>
      var players := Players(args, ai);
      match Levels(args)
      case Err(e) => Err(e)
      case Ok(levels) =>
        match ColorNames(args)
        case Err(e) => Err(e)
        case Ok(colors) => Ok(Options(help, players, levels, colors))
  }

  /** No arguments: no help, a human against the default module, level 4 for both, default colours. */
  lemma NoArguments()
    ensures ParseCommandLineArgs([]) == Ok(Options(false, (None, Some(DefaultAiFile)), (4, 4), None))
  {
  }

  /**
   * -0 makes both players the computer even with -2; -2 alone makes both
   * human; without either the second player is the computer. Every computer
   * player uses the same module.
   */
  lemma PlayersTable(args: seq<string>)
    requires ParseCommandLineArgs(args).Ok?
    ensures var o := ParseCommandLineArgs(args).value;
            && ("-0" in args ==> o.players.0.Some? && o.players.0 == o.players.1)
            && ("-0" !in args && "-2" in args ==> o.players == (None, None))
            && ("-0" !in args && "-2" !in args ==> o.players.0.None? && o.players.1.Some?)
            && (o.players.0.Some? ==> o.players.0.value == AiFile(args).value)
            && (o.players.1.Some? ==> o.players.1.value == AiFile(args).value)
  {
  }

  /**
   * A value of -l that is one written integer n gives level n to both
   * players, wherever -l stands among the arguments.
   */
  lemma OneLevel(args: seq<string>, n: int)
    requires "-l" in args && ValueAfter(args, "-l") == Ok(Show(n))
    ensures Levels(args) == Ok((n, n))
    ensures ParseCommandLineArgs(args).Ok? ==> ParseCommandLineArgs(args).value.levels == (n, n)
  {
    SplitJoin([Show(n)], ',');
    ShowParses(n);
  }

  /**
   * A value of -l that starts with two written integers a and b, separated
   * by a comma, gives a to the first player and b to the second; any further
   * comma-separated pieces are ignored.
   */
  lemma TwoLevels(args: seq<string>, a: int, b: int, rest: seq<string>)
    requires forall i :: 0 <= i < |rest| ==> ',' !in rest[i]
    requires "-l" in args && ValueAfter(args, "-l") == Ok(Join([Show(a), Show(b)] + rest, ','))
    ensures Levels(args) == Ok((a, b))
    ensures ParseCommandLineArgs(args).Ok? ==> ParseCommandLineArgs(args).value.levels == (a, b)
  {
    var pieces := [Show(a), Show(b)] + rest;
    SplitJoin(pieces, ',');
    ShowParses(a);
    ShowParses(b);
    assert Split(ValueAfter(args, "-l").value, ',') == pieces;
  }

  /** A value of -c that is names joined by commas gives those names back. */
  lemma ColorList(args: seq<string>, names: seq<string>)
    requires names != [] && forall i :: 0 <= i < |names| ==> ',' !in names[i]
    requires "-c" in args && ValueAfter(args, "-c") == Ok(Join(names, ','))
    ensures ColorNames(args) == Ok(Some(names))
    ensures ParseCommandLineArgs(args).Ok? ==> ParseCommandLineArgs(args).value.colors == Some(names)
  {
    SplitJoin(names, ',');
  }

  /**
   * rstrip(".py") removes a trailing run of '.', 'p' and 'y', not the suffix
   * ".py": "happy" loses its last three letters.
   */
  lemma StripsCharacters()
    ensures RStrip("happy", PyChars) == "ha"
    ensures RStrip("bot.py", PyChars) == "bot"
  {
    assert RStrip("ha", PyChars) == "ha";
    assert "hap" == "ha" + "p" && RStrip("hap", PyChars) == "ha";
    assert "happ" == "hap" + "p" && RStrip("happ", PyChars) == "ha";
    assert "happy" == "happ" + "y";
    assert RStrip("bot", PyChars) == "bot";
    assert "bot." == "bot" + "." && RStrip("bot.", PyChars) == "bot";
    assert "bot.p" == "bot." + "p" && RStrip("bot.p", PyChars) == "bot";
    assert "bot.py" == "bot.p" + "y";
  }

  /** A module name that does not end in '.', 'p' or 'y' is recovered from name + ".py". */
  lemma StripsPySuffix(name: string)
    requires name != [] && name[|name| - 1] !in PyChars
    ensures RStrip(name + ".py", PyChars) == name
  {
    var s := name + ".py";
    assert s[..|s| - 1] == name + ".p";
    assert (name + ".p")[..|name| + 1] == name + ".";
    assert (name + ".")[..|name|] == name;
  }
}

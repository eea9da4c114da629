/**
  `Handler::message`: from one inbound chat message to at most one reply.
  Sending the reply is left to the chat client; here the reply is the
  result.  The clock reading used by `year_progress` and the latency the
  `ping` branch measures are parameters.
 */
module Dispatch {
  import opened Options
  import Tokens
  import Decimal
  import YearProgress

  const PREFIX: char := '!'
  const TRIGGER: string := "yp"
  const HELP_TEXT: string := "Available commands:\n" + "1. !yp\n" + "2. !yp ping\n" + "-> !yp help"
  const UNKNOWN_TEXT: string := "Unknown arguments. " + "Try '!yp help' for more information."
  const PONG_HEAD: string := "Pong! This message had a latency of "
  const PONG_TAIL: string := "ms."

  /** The parts of an inbound message the handler looks at. */
  datatype Message = Message(authorIsBot: bool, content: string)

  /** A prefixed message cut into its lowercased command and its arguments. */
  datatype Invocation = Invocation(command: string, args: seq<string>)

  /** The four branches taken for the trigger word, chosen by the first argument. */
  datatype Subcommand = Progress | Ping | Help | Unknown

  predicate HasPrefix(content: string) {
    |content| >= 1 && content[0] == PREFIX
  }

  /**
    Strip the one-character prefix, split the rest on single spaces, take the
    first token off as the command and lowercase it.
   */
  function ParseInvocation(content: string): (r: Option<Invocation>)
    ensures r.None? <==> !HasPrefix(content)
  {
    if !HasPrefix(content) then None
    else
      var tokens := Tokens.Split(content[1..]);
      Some(Invocation(Tokens.Lower(tokens[0]), tokens[1..]))
  }

  /** Neither the command nor any argument holds a space. */
  lemma ParseInvocationNoSpaces(content: string)
    requires HasPrefix(content)
    ensures var inv := ParseInvocation(content).value;
      Tokens.NoSpace(inv.command) && Tokens.NoSpaceTokens(inv.args)
  {
    var tokens := Tokens.Split(content[1..]);
    Tokens.SplitTokensHaveNoSpace(content[1..]);
    var inv := ParseInvocation(content).value;
    assert inv.args == tokens[1..];
    assert forall k :: 0 <= k < |inv.args| ==> inv.args[k] == tokens[k + 1];
  }

  /**
    The command is what the raw first token lowercases to, the arguments are
    the raw tokens after it, and glued back together they give the message.
   */
  lemma ParseInvocationRoundTrip(content: string)
    requires HasPrefix(content)
    ensures var inv := ParseInvocation(content).value;
      1 + |inv.command| <= |content| &&
      var raw := content[1..1 + |inv.command|];
      Tokens.Lower(raw) == inv.command &&
      content == [PREFIX] + Tokens.Join([raw] + inv.args)
  {
    var body := content[1..];
    var tokens := Tokens.Split(body);
    var inv := ParseInvocation(content).value;
    assert inv.command == Tokens.Lower(tokens[0]) && inv.args == tokens[1..];
    Tokens.JoinSplit(body);
    JoinFirst(tokens);
    var raw := content[1..1 + |inv.command|];
    assert raw == body[..|tokens[0]|] == tokens[0];
    assert tokens == [raw] + inv.args;
    assert content == [PREFIX] + body;
  }

  /** The first token is where a join starts. */
  lemma JoinFirst(ts: seq<string>)
    requires |ts| >= 1
    ensures |ts[0]| <= |Tokens.Join(ts)| && Tokens.Join(ts)[..|ts[0]|] == ts[0]
  {
  }

  /**
    The same parse as the handler performs it: collect the split into a
    vector, `remove(0)` the command token, lowercase it.
   */
  method Tokenize(content: string) returns (r: Option<Invocation>)
    ensures r == ParseInvocation(content)
  {
    if !(|content| >= 1 && content[0] == PREFIX) {
      return None;
    }
    var args := Tokens.SplitOnSpaces(content[1..]);
    var command := args[0];
    args := args[1..];
    r := Some(Invocation(Tokens.Lower(command), args));
  }

  /** Dispatch on the first argument only, matched case-sensitively. */
  function Classify(args: seq<string>): (c: Subcommand)
    ensures c == Progress <==> args == []
    ensures c == Ping <==> args != [] && args[0] == "ping"
    ensures c == Help <==> args != [] && args[0] == "help"
  {
    if args == [] then Progress
    else if args[0] == "ping" then Ping
    else if args[0] == "help" then Help
    else Unknown
  }

  /** The `ping` reply: the latency in milliseconds between a fixed head and tail. */
  function PongText(latencyMs: int): (s: string)
  {
    PONG_HEAD + Decimal.IntToDecimal(latencyMs) + PONG_TAIL
  }

  /** The text between the head and the tail of the `ping` reply reads back as the latency. */
  lemma PongTextReadsBack(latencyMs: int)
    ensures var s := PongText(latencyMs);
      |PONG_HEAD| + |PONG_TAIL| < |s|
      && s[..|PONG_HEAD|] == PONG_HEAD && s[|s| - |PONG_TAIL|..] == PONG_TAIL
      && var digits := s[|PONG_HEAD|..|s| - |PONG_TAIL|];
         Decimal.IsIntText(digits) && Decimal.DecimalToInt(digits) == latencyMs
  {
    var s := PongText(latencyMs);
    var digits := Decimal.IntToDecimal(latencyMs);
    Decimal.IntDecimalRoundTrip(latencyMs);
    assert s[|PONG_HEAD|..|s| - |PONG_TAIL|] == digits;
  }

  /** Different latencies give different `ping` replies. */
  lemma PongTextInjective(a: int, b: int)
    requires PongText(a) == PongText(b)
    ensures a == b
  {
    PongTextReadsBack(a);
    PongTextReadsBack(b);
  }

  /** The reply for each branch. */
  function ReplyText(c: Subcommand, now: YearProgress.DateHour, latencyMs: int): (s: string)
    requires YearProgress.ValidDateHour(now)
  {
    match c
    case Progress => YearProgress.YearProgressText(now)
    case Ping => PongText(latencyMs)
    case Help => HELP_TEXT
    case Unknown => UNKNOWN_TEXT
  }

  /** The four replies are told apart by their first character. */
  lemma ReplyTextDistinct(c: Subcommand, now: YearProgress.DateHour, latencyMs: int)
    requires YearProgress.ValidDateHour(now)
    ensures var s := ReplyText(c, now, latencyMs);
      |s| >= 1
      && (s[0] == '[' <==> c == Progress)
      && (s[0] == 'P' <==> c == Ping)
      && (s[0] == 'A' <==> c == Help)
      && (s[0] == 'U' <==> c == Unknown)
  {
    if c == Ping {
      PongTextReadsBack(latencyMs);
    }
  }

  /**
    A message the handler answers: the prefix, the trigger word in any case,
    then the end of the text or a space.
   */
  predicate IsTriggerMessage(content: string) {
    |content| >= 3 && content[0] == PREFIX
    && (content[1] == 'y' || content[1] == 'Y')
    && (content[2] == 'p' || content[2] == 'P')
    && (|content| == 3 || content[3] == Tokens.SEPARATOR)
  }

  /** `Handler::message`: the reply it sends, if any. */
  function Respond(msg: Message, now: YearProgress.DateHour, latencyMs: int): (reply: Option<string>)
    requires YearProgress.ValidDateHour(now)
    ensures msg.authorIsBot ==> reply == None
    ensures !HasPrefix(msg.content) ==> reply == None
    ensures reply.Some? <==> !msg.authorIsBot && IsTriggerMessage(msg.content)
  {
    if msg.authorIsBot then None
    else match ParseInvocation(msg.content)
      case None => None
      case Some(inv) =>
        TriggerIff(msg.content);
        if inv.command == TRIGGER then Some(ReplyText(Classify(inv.args), now, latencyMs))
        else None
  }

  /** The lowercased command is the trigger word exactly for the trigger messages. */
  lemma TriggerIff(content: string)
    requires HasPrefix(content)
    ensures ParseInvocation(content).value.command == TRIGGER <==> IsTriggerMessage(content)
  {
    var body := content[1..];
    var tokens := Tokens.Split(body);
    var first := tokens[0];
    Tokens.LowerIsYp(first);
    if IsTriggerMessage(content) {
      var cmd := content[1..3];
      assert Tokens.NoSpace(cmd);
      if |content| == 3 {
        assert body == cmd;
        Tokens.SplitWord(cmd);
      } else {
        assert body == cmd + [Tokens.SEPARATOR] + content[4..];
        Tokens.SplitCons(cmd, content[4..]);
      }
      assert first == cmd;
      assert cmd in {"yp", "yP", "Yp", "YP"};
    }
    if Tokens.Lower(first) == TRIGGER {
      Tokens.JoinSplit(body);
      assert |first| == 2;
      if |tokens| == 1 {
        assert body == first;
      } else {
        assert body == first + [Tokens.SEPARATOR] + Tokens.Join(tokens[1..]);
        assert body[2] == Tokens.SEPARATOR;
      }
      assert content[1] == first[0] && content[2] == first[1];
    }
  }

  /** `!yp` alone, in any case: the year-progress line, whose percentage and bar read back. */
  lemma BareTrigger(cmd: string, now: YearProgress.DateHour, latencyMs: int)
    requires YearProgress.ValidDateHour(now)
    requires Tokens.Lower(cmd) == TRIGGER
    ensures Respond(Message(false, [PREFIX] + cmd), now, latencyMs) == Some(YearProgress.YearProgressText(now))
    ensures var p := YearProgress.YearPercentage(now);
      YearProgress.ReadProgressLine(YearProgress.YearProgressText(now))
        == Some(YearProgress.Report(YearProgress.FillLength(p), p))
  {
    Tokens.LowerIsYp(cmd);
    var content := [PREFIX] + cmd;
    assert content[1..] == cmd;
    Tokens.SplitWord(cmd);
  }

  /** The parse of `!yp <arg>` followed by nothing or by a space. */
  lemma ParseFirstArgument(cmd: string, arg: string, tail: string)
    requires Tokens.Lower(cmd) == TRIGGER
    requires Tokens.NoSpace(arg)
    requires tail == [] || tail[0] == Tokens.SEPARATOR
    ensures var r := ParseInvocation([PREFIX] + cmd + [Tokens.SEPARATOR] + arg + tail);
      r.Some? && r.value.command == TRIGGER && r.value.args != [] && r.value.args[0] == arg
  {
    Tokens.LowerIsYp(cmd);
    var content := [PREFIX] + cmd + [Tokens.SEPARATOR] + arg + tail;
    assert content[1..] == cmd + [Tokens.SEPARATOR] + (arg + tail);
    Tokens.SplitCons(cmd, arg + tail);
    if tail == [] {
      assert arg + tail == arg;
      Tokens.SplitWord(arg);
    } else {
      assert arg + tail == arg + [Tokens.SEPARATOR] + tail[1..];
      Tokens.SplitCons(arg, tail[1..]);
    }
  }

  /**
    `!yp <arg>` followed by nothing or by a space: the reply is chosen by
    `arg` alone, compared case-sensitively, whatever follows.
   */
  lemma DispatchTable(cmd: string, arg: string, tail: string, now: YearProgress.DateHour, latencyMs: int)
    requires YearProgress.ValidDateHour(now)
    requires Tokens.Lower(cmd) == TRIGGER
    requires Tokens.NoSpace(arg)
    requires tail == [] || tail[0] == Tokens.SEPARATOR
    ensures Respond(Message(false, [PREFIX] + cmd + [Tokens.SEPARATOR] + arg + tail), now, latencyMs)
      == Some(if arg == "ping" then PongText(latencyMs)
              else if arg == "help" then HELP_TEXT
              else UNKNOWN_TEXT)
  {
    var content := [PREFIX] + cmd + [Tokens.SEPARATOR] + arg + tail;
    ParseFirstArgument(cmd, arg, tail);
    var inv := ParseInvocation(content).value;
    assert Respond(Message(false, content), now, latencyMs)
      == Some(ReplyText(Classify(inv.args), now, latencyMs));
  }

  /** Arguments after the first never change the reply. */
  lemma LaterArgumentsIgnored(cmd: string, arg: string, rest: string, now: YearProgress.DateHour, latencyMs: int)
    requires YearProgress.ValidDateHour(now)
    requires Tokens.Lower(cmd) == TRIGGER
    requires Tokens.NoSpace(arg)
    ensures Respond(Message(false, [PREFIX] + cmd + [Tokens.SEPARATOR] + arg + [Tokens.SEPARATOR] + rest), now, latencyMs)
      == Respond(Message(false, [PREFIX] + cmd + [Tokens.SEPARATOR] + arg), now, latencyMs)
  {
    DispatchTable(cmd, arg, [Tokens.SEPARATOR] + rest, now, latencyMs);
    assert [PREFIX] + cmd + [Tokens.SEPARATOR] + arg + [Tokens.SEPARATOR] + rest
      == [PREFIX] + cmd + [Tokens.SEPARATOR] + arg + ([Tokens.SEPARATOR] + rest);
    DispatchTable(cmd, arg, [], now, latencyMs);
    assert [PREFIX] + cmd + [Tokens.SEPARATOR] + arg + [] == [PREFIX] + cmd + [Tokens.SEPARATOR] + arg;
  }

  /** Messages that get no reply: a bare prefix, another command, no prefix, a bot author. */
  lemma SilentCases(now: YearProgress.DateHour, latencyMs: int)
    requires YearProgress.ValidDateHour(now)
    ensures Respond(Message(false, "!"), now, latencyMs) == None
    ensures Respond(Message(false, "!other"), now, latencyMs) == None
    ensures Respond(Message(false, "yp"), now, latencyMs) == None
    ensures Respond(Message(true, "!yp"), now, latencyMs) == None
  {
    assert !IsTriggerMessage("!");
    assert !IsTriggerMessage("!other");
  }

  /** A trailing space gives one empty argument, which is not a known one. */
  lemma TrailingSpace(now: YearProgress.DateHour, latencyMs: int)
    requires YearProgress.ValidDateHour(now)
    ensures Respond(Message(false, "!yp "), now, latencyMs) == Some(UNKNOWN_TEXT)
  {
    var cmd, arg := "yp", "";
    assert Tokens.Lower(cmd) == TRIGGER && Tokens.NoSpace(arg);
    assert arg != "ping" && arg != "help";
    assert "!yp " == [PREFIX] + cmd + [Tokens.SEPARATOR] + arg + [];
    DispatchTable(cmd, arg, [], now, latencyMs);
  }

  /** A doubled space makes the first argument empty, so `ping` after it is not seen. */
  lemma DoubledSpace(now: YearProgress.DateHour, latencyMs: int)
    requires YearProgress.ValidDateHour(now)
    ensures Respond(Message(false, "!yp  ping"), now, latencyMs) == Some(UNKNOWN_TEXT)
  {
    var cmd, arg, tail := "yp", "", " ping";
    assert Tokens.Lower(cmd) == TRIGGER && Tokens.NoSpace(arg);
    assert arg != "ping" && arg != "help";
    assert "!yp  ping" == [PREFIX] + cmd + [Tokens.SEPARATOR] + arg + tail;
    DispatchTable(cmd, arg, tail, now, latencyMs);
  }

  /** The command token is lowercased before it is compared. */
  lemma UpperCaseCommand(now: YearProgress.DateHour, latencyMs: int)
    requires YearProgress.ValidDateHour(now)
    ensures Respond(Message(false, "!YP ping"), now, latencyMs) == Some(PongText(latencyMs))
  {
    var cmd, arg := "YP", "ping";
    assert Tokens.Lower(cmd) == TRIGGER by {
      assert Tokens.Lower(cmd) == [Tokens.LowerChar('Y'), Tokens.LowerChar('P')];
    }
    assert Tokens.NoSpace(arg);
    assert "!YP ping" == [PREFIX] + cmd + [Tokens.SEPARATOR] + arg + [];
    DispatchTable(cmd, arg, [], now, latencyMs);
  }

  /** Arguments are compared as they are written. */
  lemma UpperCaseArgument(now: YearProgress.DateHour, latencyMs: int)
    requires YearProgress.ValidDateHour(now)
    ensures Respond(Message(false, "!yp PING"), now, latencyMs) == Some(UNKNOWN_TEXT)
  {
    var cmd, arg := "yp", "PING";
    assert arg != "ping" && arg != "help" by {
      assert arg[0] != "ping"[0] && arg[0] != "help"[0];
    }
    assert Tokens.Lower(cmd) == TRIGGER && Tokens.NoSpace(arg);
    assert "!yp PING" == [PREFIX] + cmd + [Tokens.SEPARATOR] + arg + [];
    DispatchTable(cmd, arg, [], now, latencyMs);
  }
}

/**
 * The `HeosCommand` encoders: `create_command` frames an already rendered
 * attribute suffix as `heos://<group>/<cmd><attrs>\r\n`; the device variant
 * renders the caller's pairs with the device's `("pid", player_id)` appended
 * last, the client variant renders the caller's pairs unchanged.
 */
module Command {
  import opened Wrappers
  import opened Text
  import opened Constants
  import opened Attributes
  import Device
  import Heos

  /**
   * `create_command`: the scheme, the group, a slash, the command, the
   * attribute suffix and CR LF, in that order and nothing else (see
   * `CommandRoundTrip` and `FramedSuffix`).
   */
  function CreateCommand(group: string, cmd: string, attrsString: string): string {
    CmdPrefix + group + "/" + cmd + attrsString + CmdPostfix
  }

  /** The parts a command line is made of. */
  datatype CommandParts = CommandParts(group: string, cmd: string, attrs: seq<Attribute>)

  /** The text between the scheme and CR LF, when the line has both. */
  function Unframe(line: string): Option<string> {
    if |line| >= |CmdPrefix| + |CmdPostfix| && StartsWith(line, CmdPrefix) && EndsWith(line, CmdPostfix)
    then Some(line[|CmdPrefix|..|line| - |CmdPostfix|])
    else None
  }

  /** The group before the first slash, and what follows that slash. */
  function SplitGroup(body: string): Option<(string, string)> {
    match IndexOf(body, "/")
    case None => None
    case Some(k) => Some((body[..k], body[k + 1..]))
  }

  /** The command before the first `?`, and the pairs of the suffix that `?` starts. */
  function SplitQuery(rest: string): Option<(string, seq<Attribute>)> {
    match IndexOf(rest, "?")
    case None => Some((rest, []))
    case Some(m) =>
      match ParseQuery(rest[m..])
      case None => None
      case Some(attrs) => Some((rest[..m], attrs))
  }

  /**
   * Reads a command line back: strip the scheme and CR LF, cut the group at the
   * first slash, and the command at the first `?`, which starts the attribute
   * suffix.
   */
  function ParseCommandLine(line: string): Option<CommandParts> {
    match Unframe(line)
    case None => None
    case Some(body) =>
      match SplitGroup(body)
      case None => None
      case Some((group, rest)) =>
        match SplitQuery(rest)
        case None => None
        case Some((cmd, attrs)) => Some(CommandParts(group, cmd, attrs))
  }

  lemma UnframeCommand(group: string, cmd: string, s: string)
    ensures Unframe(CreateCommand(group, cmd, s)) == Some(group + "/" + (cmd + s))
  {
    var mid := group + "/" + (cmd + s);
    var line := CreateCommand(group, cmd, s);
    assert line == CmdPrefix + mid + CmdPostfix;
    assert line[..|CmdPrefix|] == CmdPrefix;
    assert line[|line| - |CmdPostfix|..] == CmdPostfix;
    assert line[|CmdPrefix|..|line| - |CmdPostfix|] == mid;
  }

  lemma SplitGroupOf(group: string, rest: string)
    requires '/' !in group
    ensures SplitGroup(group + "/" + rest) == Some((group, rest))
  {
    var body := group + "/" + rest;
    assert body[|group|..|group| + 1] == "/";
    forall j | 0 <= j < |group| ensures body[j] != "/"[0] {
      assert body[j] == group[j];
    }
    IndexOfIs(body, "/", |group|);
    assert body[..|group|] == group;
    assert body[|group| + 1..] == rest;
  }

  lemma SplitQueryOf(cmd: string, attrs: seq<Attribute>)
    requires '?' !in cmd && Unambiguous(attrs)
    ensures SplitQuery(cmd + AttributesFrom(attrs)) == Some((cmd, attrs))
  {
    var s := AttributesFrom(attrs);
    var rest := cmd + s;
    AttributesRoundTrip(attrs);
    if |attrs| == 0 {
      assert rest == cmd;
      IndexOfAbsent(rest, "?");
    } else {
      assert rest[|cmd|..|cmd| + 1] == "?";
      forall j | 0 <= j < |cmd| ensures rest[j] != "?"[0] {
        assert rest[j] == cmd[j];
      }
      IndexOfIs(rest, "?", |cmd|);
      assert rest[..|cmd|] == cmd;
      assert rest[|cmd|..] == s;
    }
  }

  /**
   * Round trip: when the group holds no slash, the command no `?` and the pairs
   * are unambiguous, the framed line reads back as exactly that group, command
   * and list of pairs.
   */
  lemma CommandRoundTrip(group: string, cmd: string, attrs: seq<Attribute>)
    requires '/' !in group && '?' !in cmd && Unambiguous(attrs)
    ensures ParseCommandLine(CreateCommand(group, cmd, AttributesFrom(attrs))) == Some(CommandParts(group, cmd, attrs))
  {
    UnframeCommand(group, cmd, AttributesFrom(attrs));
    SplitGroupOf(group, cmd + AttributesFrom(attrs));
    SplitQueryOf(cmd, attrs);
  }

  /**
   * `HeosCommand::command_from` for a device: the caller's pairs are copied,
   * the device's `("pid", player_id)` is pushed onto the copy and the result
   * is framed. It never fails; the rendered suffix always has the `?`, and it
   * ends with `pid=<player_id>`, after a `&` when the caller passed pairs and
   * right after the `?` when not.
   */
  method DeviceCommandFrom(device: Device.HeosDevice, group: string, cmd: string, attrs: seq<Attribute>)
    returns (r: Result<string, string>)
    ensures r.Success?
    ensures r.value == CreateCommand(group, cmd, AttributesFrom(attrs + [("pid", device.playerId)]))
    ensures var head := CmdPrefix + group + "/" + cmd;
      && |r.value| > |head|
      && StartsWith(r.value, head + "?")
      && EndsWith(r.value, (if |attrs| == 0 then "?" else "&") + "pid=" + device.playerId + CmdPostfix)
  {
    var withPid := attrs;
    withPid := withPid + [("pid", device.playerId)];
    var attrsString := ToHeosAttrs(withPid).value;
    r := Success(CreateCommand(group, cmd, attrsString));
    PidSuffix(group, cmd, attrs, device.playerId);
  }

  /** A framed suffix `?...` made of a kept part and a last part: where each lands in the line. */
  lemma FramedSuffix(group: string, cmd: string, before: string, tail: string)
    requires |before + tail| > 0 && (before + tail)[0] == '?'
    ensures var line := CreateCommand(group, cmd, before + tail);
      && StartsWith(line, CmdPrefix + group + "/" + cmd + "?")
      && EndsWith(line, tail + CmdPostfix)
  {
    var head := CmdPrefix + group + "/" + cmd;
    var s := before + tail;
    assert CreateCommand(group, cmd, s) == head + s + CmdPostfix;
    StartsWithFirstOf(head, s, CmdPostfix);
    assert head + s == (head + before) + tail;
    EndsWithLastTwo(head + before, tail, CmdPostfix);
  }

  /** Where the pid pair lands in a device command line. */
  lemma PidSuffix(group: string, cmd: string, attrs: seq<Attribute>, pid: string)
    ensures var line := CreateCommand(group, cmd, AttributesFrom(attrs + [("pid", pid)]));
      && StartsWith(line, CmdPrefix + group + "/" + cmd + "?")
      && EndsWith(line, (if |attrs| == 0 then "?" else "&") + "pid=" + pid + CmdPostfix)
  {
    var sep := if |attrs| == 0 then "?" else "&";
    var before := if |attrs| == 0 then "" else AttributesFrom(attrs);
    var tail := sep + "pid=" + pid;
    assert AttributesFrom(attrs + [("pid", pid)]) == before + tail by {
      AttributesSnoc(attrs, ("pid", pid));
      assert "pid" + "=" == "pid=";
      assert (if |attrs| == 0 then "?" else AttributesFrom(attrs) + "&") == before + sep;
      RegroupFive(before, sep, "pid", "=", pid);
    }
    assert |before + tail| > 0 && (before + tail)[0] == '?' by {
      if |attrs| > 0 {
        assert AttributesFrom(attrs)[0] == '?';
      }
    }
    FramedSuffix(group, cmd, before, tail);
  }

  /**
   * `HeosCommand::command_from` for the client: the caller's pairs are framed
   * unchanged. It never fails, and it yields the same line as the client's
   * `command_from` in heos.rs.
   */
  function HeosCommandFrom(group: string, cmd: string, attrs: seq<Attribute>): (r: Result<string, string>)
    ensures r == Success(Heos.CommandFrom(group, cmd, attrs))
  {
    match ToHeosAttrs(attrs)
    case Success(attrsString) => Success(CreateCommand(group, cmd, attrsString))
    case Failure(e) => Failure(e)
  }

  /** The client variant adds no attributes, so its line reads back as the caller's pairs alone. */
  lemma HeosCommandRoundTrip(group: string, cmd: string, attrs: seq<Attribute>)
    requires '/' !in group && '?' !in cmd && Unambiguous(attrs)
    ensures ParseCommandLine(HeosCommandFrom(group, cmd, attrs).value) == Some(CommandParts(group, cmd, attrs))
  {
    CommandRoundTrip(group, cmd, attrs);
  }

  /**
   * The device variant's line reads back as the caller's pairs followed by the
   * pid pair: the pid is always last, and no caller pair is lost or reordered.
   */
  lemma DeviceCommandRoundTrip(device: Device.HeosDevice, group: string, cmd: string, attrs: seq<Attribute>)
    requires '/' !in group && '?' !in cmd && Unambiguous(attrs)
    requires '&' !in device.playerId
    ensures ParseCommandLine(CreateCommand(group, cmd, AttributesFrom(attrs + [("pid", device.playerId)])))
         == Some(CommandParts(group, cmd, attrs + [("pid", device.playerId)]))
  {
    var all := attrs + [("pid", device.playerId)];
    assert Unambiguous(all) by {
      forall i | 0 <= i < |all| ensures '&' !in all[i].0 && '=' !in all[i].0 && '&' !in all[i].1 {
        if i == |attrs| {
          assert all[i] == ("pid", device.playerId);
        } else {
          assert all[i] == attrs[i];
        }
      }
    }
    CommandRoundTrip(group, cmd, all);
  }

  /** The library's expected line for `player/get_players`: no attributes, no `?`. */
  lemma GetPlayersExample()
    ensures HeosCommandFrom("player", "get_players", []) == Success("heos://player/get_players\r\n")
  {
    var line := Heos.CommandFrom("player", "get_players", []);
    assert line == CmdPrefix + "player" + "/" + "get_players" + CmdPostfix;
    assert line == "heos://player/get_players\r\n";
    assert HeosCommandFrom("player", "get_players", []) == Success(line);
  }

  /** The library's expected line for `player/set_play_state` sent to the device with pid 5. */
  lemma SetPlayStateExample()
    ensures CreateCommand("player", "set_play_state", AttributesFrom([("state", "play")] + [("pid", "5")]))
         == "heos://player/set_play_state" + "?state=play&pid=5" + "\r\n"
  {
    SetPlayStateSuffix();
    assert "?state=play" + "&pid=5" == "?state=play&pid=5";
    SetPlayStateLine();
  }

  lemma SetPlayStateSuffix()
    ensures AttributesFrom([("state", "play")] + [("pid", "5")]) == "?state=play" + "&pid=5"
  {
    assert AttributesFrom([("state", "play")]) == "?state=play" by {
      PiecesOf([("state", "play")]);
    }
    AttributesSnoc([("state", "play")], ("pid", "5"));
    assert "&" + "pid" + "=" + "5" == "&pid=5";
  }

  lemma SetPlayStateLine()
    ensures CreateCommand("player", "set_play_state", "?state=play&pid=5")
         == "heos://player/set_play_state" + "?state=play&pid=5" + "\r\n"
  {
    assert CmdPrefix + "player" + "/" + "set_play_state" == "heos://player/set_play_state";
  }

  /** The library's expected line for `player/get_volume` with the pid passed as an attribute. */
  lemma ClientCommandExample()
    ensures Heos.CommandFrom("player", "get_volume", [("pid", "5")]) == "heos://player/get_volume?pid=5\r\n"
  {
    PiecesOf([("pid", "5")]);
  }
}

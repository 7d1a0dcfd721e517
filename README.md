# heos-lib text layer in Dafny

A model of the text layer of `heos-lib`, the Rust client library of heos-dial.
HEOS is Denon's line-based control protocol. The model covers four parts:

- **Command encoding.** `attributes_from` renders an ordered list of
  `(key, value)` pairs as a query suffix: nothing for no pairs, otherwise
  `?k1=v1&k2=v2...`. Pairs are never escaped, merged or reordered.
  `command_from` and `create_command` frame the suffix as
  `heos://<group>/<cmd><attrs>\r\n`. The device variant of
  `HeosCommand::command_from` pushes `("pid", player_id)` after the caller's
  pairs. The client variant passes the caller's pairs through unchanged.
- **Discovery-response parsing.** `parse_discovery_response` takes the part
  of an SSDP search response before the first header-block separator and
  splits it into lines. It returns the trimmed text after the first colon of
  the first line holding `LOCATION` and a colon, and fails with
  `Invalid response` when no line qualifies. SSDP search responses are
  described in section 1.3.3 of the UPnP Device Architecture 1.1.
- **Value types.** `HeosDevice` holds a base URL and a player id.
  `HeosGroup` compares by group id alone, and its clone drops leader and
  players.
- **The Rust `str` operations** these rely on, over `seq<char>`: `find`,
  `contains`, `split` with a string pattern, `trim`, and the fold of
  `Iterator::reduce`.

Files (one module each):

- `wrappers.dfy`: `Option` and `Result`.
- `text.dfy`: the `str` operations.
- `constants.dfy`: `CMD_PREFIX` and `CMD_POSTFIX`.
- `attributes.dfy`: `heos_attributes.rs`, and the identical copy in `heos.rs`.
- `heos.rs` is split in two:
  - `heos.dfy`: `Heos::new`, `command_from` and the discovery parser.
  - `command.dfy`: `heos_command.rs`.
- `device.dfy`: `heos_device.rs`.
- `group.dfy`: `heos_group.rs`.

Where the encoders are specified, each one is paired with a reader that
recovers its inputs: `ParseQuery` for the attribute suffix and
`ParseCommandLine` for a whole command line. The round-trip lemmas connect
each pair. The discovery parser is a `for` loop with an early return, as in
the source. It is proved equal to the recursive search `SearchLines`, and
the properties of that search are proved as lemmas.

## Model

| member | source | states |
|---|---|---|
| Text.IndexOf | heos-lib/src/heos.rs:123 | `find`: a match at the returned position and none before it; `None` exactly when there is no match anywhere |
| Text.Split | heos-lib/src/heos.rs:119-121 | `split` yields at least one piece (so `.next()` is never `None`), no piece contains the separator, joining the pieces with it gives back the input, and every cut is at the leftmost occurrence of the separator in what remains, so the first piece is the text before the first separator even when the separator overlaps itself |
| Text.SplitJoin | heos-lib/src/heos.rs:119-121 | splitting a join of pieces that avoid the separator's first character gives back exactly those pieces |
| Text.TrimAt | heos-lib/src/heos.rs:124 | `trim` keeps exactly the slice between the leading and the trailing whitespace runs |
| Text.TrimBetween | heos-lib/src/heos.rs:124 | whitespace on both sides of a text that starts and ends with a non-space is removed, and the text is kept whole |
| Attributes.FoldPieces | heos-lib/src/heos_attributes.rs:20-22 | the left fold `prev&next` over the pieces builds the same text as joining them with `&` |
| Attributes.Reduce | heos-lib/src/heos.rs:101-107 | `reduce` is `None` exactly for no pieces; otherwise it is the pieces joined by `&` in input order |
| Attributes.AttributesFrom | heos-lib/src/heos_attributes.rs:16-28 | empty exactly for no pairs; otherwise `?` followed by the `key=value` pieces joined by `&` in input order (the `None` arm is only reachable for no pairs) |
| Attributes.ToHeosAttrs | heos-lib/src/heos_attributes.rs:30-34 | `to_heos_attrs` never fails and yields the `attributes_from` rendering |
| Attributes.AttributesSnoc | heos-lib/src/heos_attributes.rs:20-24 | appending a pair keeps the earlier rendering and adds `&key=value`, or `?key=value` after no pairs |
| Attributes.AttributesRoundTrip | heos-lib/src/heos_attributes.rs:16-28 | when no key holds `&` or `=` and no value holds `&`, the rendering reads back as exactly the input pairs: none dropped, merged or reordered |
| Attributes.NoEscaping | heos-lib/src/heos_attributes.rs:21 | nothing is escaped: `[("a","b&c=d")]` renders exactly like `[("a","b"),("c","d")]` |
| Attributes.SeparatorCount | heos-lib/src/heos_attributes.rs:20-24 | for n >= 1 pairs free of `&`, the rendering holds exactly n - 1 `&` |
| Attributes.RenderingExamples | heos-lib/src/heos_attributes_test.rs:19-21 | `[]`, `[("pid","5")]` and `[("pid","5"),("v","1")]` render as `""`, `"?pid=5"` and `"?pid=5&v=1"` |
| Heos.New | heos-lib/src/heos.rs:50-55 | a new client has no devices |
| Heos.CommandFrom | heos-lib/src/heos.rs:111-116 | the line starts with `heos://<group>/<cmd>` and ends with CR LF; the character after the command is `?` exactly when there are pairs; without pairs the line is just scheme, group, slash, command and CR LF |
| Heos.SearchLinesFindsFirst | heos-lib/src/heos.rs:121-130 | `None` exactly when no line holds both `LOCATION` and a colon; otherwise the trimmed text after the first colon of the first such line |
| Heos.SearchLinesAt | heos-lib/src/heos.rs:121-128 | one loop step: a qualifying line ends the search with its value, any other line passes it on to the next |
| Heos.ParseHeadersFindsFirst | heos-lib/src/heos.rs:118-134 | for given separators: `Invalid response` exactly when no header line qualifies; otherwise the device whose URL is the value of the first qualifying line |
| Heos.ParseDiscoveryResponse | heos-lib/src/heos.rs:118-134 | the `for` loop with early return computes exactly `ParseHeaders` with the literal escape-text separators |
| Heos.TailIgnored | heos-lib/src/heos.rs:119 | whatever follows the first block separator, a `LOCATION` line included, never changes the result |
| Heos.HeaderLinesOf | heos-lib/src/heos.rs:119-121 | clean lines joined by a line separator, then the block separator and any tail, split back into exactly those lines |
| Heos.EscapedResponseParsed | heos-lib/src/heos.rs:119-121 | as written, a response whose breaks are the escape texts is read line by line as intended |
| Heos.NoEscapesIsOneLine | heos-lib/src/heos.rs:119-121 | as written, a response holding no backslash is a single header line |
| Heos.CrLfResponseParsed | heos-lib/src/heos.rs:118-134 | corrected: with real CR LF separators, a response of clean header lines yields the first qualifying line's value |
| Heos.CrLfTestResponseMisparsed | heos-lib/src/heos_test.rs:21-31 | as written, the test's eleven-line response with real CR LF and any plain location is one line; its first colon is the one of `CACHE-CONTROL:`, so the result is `max-age=180` followed by CR LF and the other nine header lines |
| Heos.RealCrLfResponseMisparsed | heos-lib/src/heos_test.rs:21-34 | as written, the test's response with its own location yields a text starting with `max-age=180`, and not the URL the test expects |
| Heos.CrLfTestResponseParsed | heos-lib/src/heos_test.rs:21-31 | corrected, the test's eleven-line response with any plain location that starts and ends with a non-space yields that location |
| Heos.RealCrLfResponseParsed | heos-lib/src/heos_test.rs:21-34 | corrected, the test's response with its own location yields the URL the test expects |
| Command.FramedSuffix | heos-lib/src/heos_command.rs:21-26 | for a suffix starting with `?`, the line starts with scheme, group, slash, command and `?`, and ends with the suffix's last part followed by CR LF |
| Command.CommandRoundTrip | heos-lib/src/heos_command.rs:21-26 | a framed line reads back as its group, command and pairs, when the group has no slash, the command no `?` and the pairs are unambiguous |
| Command.DeviceCommandFrom | heos-lib/src/heos_command.rs:28-39 | never fails; frames the caller's pairs followed by `("pid", player_id)`; always carries `?`; ends with `pid=<player_id>` CR LF, after `&` when the caller passed pairs and after `?` when not |
| Command.PidSuffix | heos-lib/src/heos_command.rs:32-35 | the pushed pid pair comes last in the line, after `&` or right after `?` |
| Command.DeviceCommandRoundTrip | heos-lib/src/heos_command.rs:32-37 | the device line reads back as the caller's pairs in order, followed by the pid pair |
| Command.HeosCommandFrom | heos-lib/src/heos_command.rs:41-49 | never fails, and yields the same line as the client's `command_from` |
| Command.HeosCommandRoundTrip | heos-lib/src/heos_command.rs:41-49 | the client line reads back as the caller's pairs alone |
| Command.GetPlayersExample | heos-lib/src/heos_command_test.rs:18 | `player/get_players` without pairs is `heos://player/get_players\r\n` |
| Command.SetPlayStateExample | heos-lib/src/heos_command_test.rs:19 | `player/set_play_state` with `state=play` for device pid 5 is `heos://player/set_play_state?state=play&pid=5\r\n` |
| Command.ClientCommandExample | heos-lib/src/heos_attributes_test.rs:25-30 | `player/get_volume` with `[("pid","5")]` is `heos://player/get_volume?pid=5\r\n` |
| Device.New | heos-lib/src/heos_device.rs:18-24 | `new` stores the URL as `base_url` and the pid as `player_id`, validating nothing |
| Device.Default | heos-lib/src/heos_device.rs:12 | the derived default has empty `base_url` and `player_id` |
| Device.NewIsBijective | heos-lib/src/heos_device.rs:18-24 | every device is `new` of its own fields, and different arguments give different devices |
| Device.DefaultIsNewOfEmpty | heos-lib/src/heos_device.rs:12 | the default device is `new("", "")` |
| Group.New | heos-lib/src/heos_group.rs:23-30 | `new` sets name and group id, with no leader and no player list |
| Group.Clone | heos-lib/src/heos_group.rs:33-42 | `clone` copies name and group id and always resets leader and players |
| Group.EqIgnoresOtherFields | heos-lib/src/heos_group.rs:44-48 | equality looks at the group id alone: name, leader and players never change it |
| Group.EqIsEquivalence | heos-lib/src/heos_group.rs:46 | equality is reflexive, symmetric and transitive |
| Group.CloneEqualsOriginal | heos-lib/src/heos_group_test.rs:23-28 | a clone compares equal to its original, in both directions |
| Group.CloneIsNew | heos-lib/src/heos_group.rs:33-42 | a clone is `new` of the original's name and id |
| Group.CloneIdempotent | heos-lib/src/heos_group.rs:34-40 | cloning a clone changes nothing |
| Group.CloneDropsLeaderAndPlayers | heos-lib/src/heos_group.rs:33-42 | a clone equals its original as a value exactly when the original had neither leader nor players |

## Left out

- `Heos::discover` (heos-lib/src/heos.rs:57-95) is left out. It does UDP multicast I/O on an async stream with an endless receive loop. Only the parser it calls is modelled.
- The `DISCOVERY_REQUEST` text and `TARGET_URN` (heos-lib/src/heos.rs:22-28) are used only by `discover`.
- The `None` arm of `split(..).next()` (heos-lib/src/heos.rs:132) is not modelled. `Text.Split` always yields a first piece, so the arm cannot be reached.
- `?` on `to_heos_attrs` in heos-lib/src/heos_command.rs:35 and :45 has no failure path in the device method. `Attributes.ToHeosAttrs` proves that the call never fails.
- heos-lib/src/heos_command.rs refers to `crate::constants::PREFIX` and `POSTFIX`, which heos-lib/src/constants.rs:15-16 names `CMD_PREFIX` and `CMD_POSTFIX`. The model uses those values.
- `HeosGroup`'s leader and players (heos-lib/src/heos_group.rs:12-19) use the `HeosDevice` that heos-lib/src/lib.rs:20 re-exports from heos.rs, and the model uses that type too. Clone drops those fields and equality ignores them, so their type changes no result.
- heos-lib/src/heos_command.rs imports the `HeosDevice` of heos.rs, which has no `player_id`. The device variant is modelled on the `HeosDevice` of heos_device.rs, the one that has that field.
- `attributes_from` and the `HeosAttributes` impl exist twice: heos-lib/src/heos.rs:40-48 and :97-109, and heos-lib/src/heos_attributes.rs. The two copies are the same code and are modelled once, in `Attributes`.
- Rust's `&self` borrow and `attrs.clone()` are not modelled as such. Devices and attribute lists are values, so the caller's device and pairs cannot be changed.
- Indices are characters, not UTF-8 bytes. Every pattern searched for is ASCII, so each cut falls where Rust's byte offsets put it.
- heos-lib/src/heos_reply.rs, heos_commands.rs and heos_media.rs are not part of this model. Nor are the TUI (heos-tui) and the firmware (src/).
- Tests that contradict the code are not used as properties:
  - heos_commands_test.rs puts `pid` first.
  - heos_command_test.rs:21-30 uses a builder API that does not exist; only its expected strings are used.
  - heos_device_test.rs calls `new` with one argument.
  - heos_test.rs:34 reads a `base_url` field that heos.rs does not have. Its response is used only in the finding below.
  - heos_attributes_test.rs:28-29 calls `HeosDevice::command_from` as a three-argument associated function. Neither `HeosDevice` has one, and the trait method takes `&self`. Only its expected string is used, as the result of the client's `command_from` in heos.rs (`Command.ClientCommandExample`).
- Heos.ParseDiscoveryResponseCrLf, the corrected parser, has no contract of its own. Its behaviour is stated by `CrLfResponseParsed` and `RealCrLfResponseParsed`.

## Findings

| source | as written | input that shows it | evidently intended | confidence | as-written member | corrected member |
|---|---|---|---|---|---|---|
| heos-lib/src/heos.rs:119-121 | splits on the four-character escape texts `\r\n` and `\r\n\r\n` (backslash, `r`, backslash, `n`), not on CR LF | the eleven-line response of heos-lib/src/heos_test.rs:21-31, with real CR LF: the text holds no backslash, so it is one line; its first colon is the one in `CACHE-CONTROL:`; the result is `max-age=180`, CR LF, and the remaining nine header lines | split on real CR LF; the result is the URL `http://10.0.8.87:60006/upnp/desc/aios_device/aios_device.xml`, as the test expects | high (not executed) | Heos.RealCrLfResponseMisparsed | Heos.RealCrLfResponseParsed |

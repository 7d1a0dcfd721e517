/**
 * The `Heos` client's text layer: rendering a command line from a group, a
 * command and its attributes, and reading the device URL out of an SSDP search
 * response (the `LOCATION` header of section 1.3.3 of the UPnP Device
 * Architecture 1.1).
 */
module Heos {
  import opened Wrappers
  import opened Text
  import opened Constants
  import opened Attributes

  /** The discovery result: this file declares its own `HeosDevice` holding only the URL. */
  datatype HeosDevice = HeosDevice(url: string)

  /** The client; it starts out knowing no devices. */
  datatype Heos = Heos(devices: seq<HeosDevice>)

  /** `Heos::new`: a client with an empty device list. */
  function New(): (h: Heos)
    ensures |h.devices| == 0
  {
    Heos([])
  }

  /**
   * `command_from`: `heos://<group>/<cmd><attrs>\r\n`. The line starts with the
   * scheme, group and command and ends with CR LF; the character right after the
   * command is `?` exactly when there are attributes, and with none the line is
   * just the scheme, group, command and CR LF.
   */
  function CommandFrom(group: string, cmd: string, attrs: seq<Attribute>): (r: string)
    ensures StartsWith(r, CmdPrefix + group + "/" + cmd)
    ensures EndsWith(r, CmdPostfix)
    ensures |r| > |CmdPrefix + group + "/" + cmd|
    ensures r[|CmdPrefix + group + "/" + cmd|] == '?' <==> |attrs| > 0
    ensures |attrs| == 0 ==> r == CmdPrefix + group + "/" + cmd + CmdPostfix
  {
    var head := CmdPrefix + group + "/" + cmd;
    var r := head + AttributesFrom(attrs) + CmdPostfix;
    assert r[..|head|] == head;
    assert r[|r| - |CmdPostfix|..] == CmdPostfix;
    assert r[|head|] == (AttributesFrom(attrs) + CmdPostfix)[0];
    r
  }

  // ---------------------------------------------------------------------------
  // Discovery response parsing

  /**
   * The separators `parse_discovery_response` splits on are the backslash
   * escape TEXTS: backslash, `r`, backslash, `n` (four characters per line
   * break), not the control characters CR and LF.
   */
  const EscapedLineSeparator: string := "\\r\\n"
  const EscapedBlockSeparator: string := "\\r\\n\\r\\n"

  /** The real CR LF separators an SSDP response uses. */
  const CrLf: string := "\r\n"
  const CrLfCrLf: string := "\r\n\r\n"

  const InvalidResponse: string := "Invalid response"

  /** A header line the parser accepts: it contains `LOCATION` and a colon. */
  predicate IsLocationLine(line: string) {
    Contains(line, "LOCATION") && Contains(line, ":")
  }

  /** The text after the first colon of a location line, trimmed. */
  function LocationValue(line: string): string
    requires IsLocationLine(line)
  {
    Trim(line[IndexOf(line, ":").value + 1..])
  }

  /** Line `i` is a location line and none before it is. */
  predicate FirstLocationLine(lines: seq<string>, i: int) {
    && 0 <= i < |lines|
    && IsLocationLine(lines[i])
    && forall j :: 0 <= j < i ==> !IsLocationLine(lines[j])
  }

  /**
   * The search of the `for` loop: the value of the first location line, or
   * nothing when no line is one (see `SearchLinesFindsFirst`).
   */
  function SearchLines(lines: seq<string>): Option<string> {
    if |lines| == 0 then None
    else if IsLocationLine(lines[0]) then Some(LocationValue(lines[0]))
    else SearchLines(lines[1..])
  }

  /**
   * The search finds nothing exactly when no line holds both `LOCATION` and a
   * colon; otherwise it yields the value of the FIRST such line.
   */
  lemma {:induction false} SearchLinesFindsFirst(lines: seq<string>)
    ensures SearchLines(lines).None? <==> forall i :: 0 <= i < |lines| ==> !IsLocationLine(lines[i])
    ensures SearchLines(lines).Some? ==>
      exists i :: FirstLocationLine(lines, i) && SearchLines(lines).value == LocationValue(lines[i])
  {
    if |lines| > 0 {
      if IsLocationLine(lines[0]) {
        assert FirstLocationLine(lines, 0);
      } else {
        SearchLinesFindsFirst(lines[1..]);
        SkipNonLocationLine(lines);
      }
    }
  }

  /** Past a first line that is not a location line, the search goes on in the rest. */
  lemma SkipNonLocationLine(lines: seq<string>)
    requires |lines| > 0 && !IsLocationLine(lines[0])
    ensures (forall i :: 0 <= i < |lines| ==> !IsLocationLine(lines[i]))
        <==> (forall i :: 0 <= i < |lines[1..]| ==> !IsLocationLine(lines[1..][i]))
    ensures forall i :: FirstLocationLine(lines[1..], i) ==> FirstLocationLine(lines, i + 1) && lines[1..][i] == lines[i + 1]
  {
    forall i | FirstLocationLine(lines[1..], i) ensures FirstLocationLine(lines, i + 1) {
      forall j | 0 <= j < i + 1 ensures !IsLocationLine(lines[j]) {
        if j > 0 {
          assert lines[j] == lines[1..][j - 1];
        }
      }
    }
    if forall i :: 0 <= i < |lines[1..]| ==> !IsLocationLine(lines[1..][i]) {
      forall i | 0 <= i < |lines| ensures !IsLocationLine(lines[i]) {
        if i > 0 {
          assert lines[i] == lines[1..][i - 1];
        }
      }
    }
  }

  /** The header lines: the part before the first block separator, split at each line separator. */
  function HeaderLines(response: string, blockSep: string, lineSep: string): seq<string>
    requires |blockSep| > 0 && |lineSep| > 0
  {
    Split(Split(response, blockSep)[0], lineSep)
  }

  /**
   * What `parse_discovery_response` computes, for given separators: an error
   * exactly when no header line contains both `LOCATION` and a colon; otherwise
   * the device whose URL is the trimmed text after the first colon of the FIRST
   * such line.
   */
  function ParseHeaders(response: string, blockSep: string, lineSep: string): Result<HeosDevice, string>
    requires |blockSep| > 0 && |lineSep| > 0
  {
    match SearchLines(HeaderLines(response, blockSep, lineSep))
    case Some(url) => Success(HeosDevice(url))
    case None => Failure(InvalidResponse)
  }

  lemma ParseHeadersFindsFirst(response: string, blockSep: string, lineSep: string)
    requires |blockSep| > 0 && |lineSep| > 0
    ensures var r := ParseHeaders(response, blockSep, lineSep);
      var lines := HeaderLines(response, blockSep, lineSep);
      && (r.Failure? <==> forall i :: 0 <= i < |lines| ==> !IsLocationLine(lines[i]))
      && (r.Failure? ==> r.error == InvalidResponse)
      && (r.Success? ==> exists i :: FirstLocationLine(lines, i) && r.value.url == LocationValue(lines[i]))
  {
    SearchLinesFindsFirst(HeaderLines(response, blockSep, lineSep));
  }

  /**
   * `parse_discovery_response`, as written: take the text before the first
   * escaped block separator, walk its escaped lines and return at the first
   * one holding `LOCATION` and a colon. The `None` arm of `split(..).next()`
   * is left out: `Split` always yields a first piece.
   */
  method ParseDiscoveryResponse(response: string) returns (r: Result<HeosDevice, string>)
    ensures r == ParseHeaders(response, EscapedBlockSeparator, EscapedLineSeparator)
  {
    var headerStr := Split(response, EscapedBlockSeparator)[0];
    var headerLines := Split(headerStr, EscapedLineSeparator);
    assert headerLines == HeaderLines(response, EscapedBlockSeparator, EscapedLineSeparator);
    for i := 0 to |headerLines|
      invariant SearchLines(headerLines[i..]) == SearchLines(headerLines)
    {
      var headerLine := headerLines[i];
      SearchLinesAt(headerLines, i);
      if Contains(headerLine, "LOCATION") {
        var idx := IndexOf(headerLine, ":");
        if idx.Some? {
          var url := Trim(headerLine[idx.value + 1..]);
          assert SearchLines(headerLines) == Some(url) by {
            assert IsLocationLine(headerLine);
          }
          return Success(HeosDevice(url));
        }
      }
    }
    assert SearchLines(headerLines) == None by {
      assert headerLines[|headerLines|..] == [];
    }
    return Failure(InvalidResponse);
  }

  /** One step of the search, from line `i`. */
  lemma SearchLinesAt(lines: seq<string>, i: nat)
    requires i < |lines|
    ensures IsLocationLine(lines[i]) ==> SearchLines(lines[i..]) == Some(LocationValue(lines[i]))
    ensures !IsLocationLine(lines[i]) ==> SearchLines(lines[i..]) == SearchLines(lines[i + 1..])
  {
    assert lines[i..][0] == lines[i];
    assert lines[i..][1..] == lines[i + 1..];
  }

  /**
   * The same parser splitting on real CR LF, as SSDP responses are written;
   * see `CrLfResponseParsed` and `RealCrLfResponseMisparsed`.
   */
  function ParseDiscoveryResponseCrLf(response: string): Result<HeosDevice, string> {
    ParseHeaders(response, CrLfCrLf, CrLf)
  }

  /**
   * Nothing after the first block separator is ever looked at: replacing all of
   * it, a `LOCATION` line included, leaves the result unchanged.
   */
  lemma TailIgnored(response: string, t: string, blockSep: string, lineSep: string)
    requires |blockSep| > 0 && |lineSep| > 0
    requires IndexOf(response, blockSep).Some?
    ensures var k := IndexOf(response, blockSep).value;
      ParseHeaders(response[..k] + blockSep + t, blockSep, lineSep) == ParseHeaders(response, blockSep, lineSep)
  {
    var k := IndexOf(response, blockSep).value;
    var s := response[..k] + blockSep + t;
    var n := |blockSep|;
    assert response[k..k + n] == blockSep;
    assert s[..k + n] == response[..k + n];
    assert s[k..k + n] == blockSep;
    forall j | 0 <= j < k ensures !MatchesAt(s, blockSep, j) {
      SliceOfPrefix(s, k + n, j, j + n);
      SliceOfPrefix(response, k + n, j, j + n);
      assert !MatchesAt(response, blockSep, j);
    }
    IndexOfFirst(s, blockSep, k);
    assert s[..k] == response[..k];
  }

  /**
   * A line separator after which a recovering reader can tell a block
   * separator from a line break: wherever its first character recurs inside it
   * at offset `o`, the character `o` places before its end is that first
   * character too.
   */
  predicate Resynchronising(ls: string) {
    && |ls| > 0
    && forall o :: 0 < o < |ls| && ls[o] == ls[0] ==> ls[|ls| - o] == ls[0]
  }

  /** Header lines that are non-empty and never contain the separator's first character. */
  predicate CleanLines(lines: seq<string>, ls: string)
    requires |ls| > 0
  {
    forall i :: 0 <= i < |lines| ==> |lines[i]| > 0 && ls[0] !in lines[i]
  }

  lemma JoinStartsWithFirst(xs: seq<string>, sep: string)
    requires |xs| > 0 && |xs[0]| > 0
    ensures |Join(xs, sep)| > 0 && Join(xs, sep)[0] == xs[0][0]
  {
  }

  /** No block separator starts inside a line that lacks the separator's first character. */
  lemma NoMatchInLine(x: string, rest: string, ls: string)
    requires |ls| > 0 && ls[0] !in x
    ensures forall j :: 0 <= j < |x| ==> !MatchesAt(x + rest, ls + ls, j)
  {
    var s := x + rest;
    forall j | 0 <= j < |x| ensures !MatchesAt(s, ls + ls, j) {
      if j + |ls + ls| <= |s| {
        assert s[j..j + |ls + ls|][0] == s[j] == x[j];
        assert x[j] in x;
      }
    }
  }

  /**
   * No block separator starts inside a line separator that is followed by a
   * character other than the separator's first one.
   */
  lemma NoMatchInSeparator(x: string, ls: string, t: string)
    requires Resynchronising(ls) && |t| > 0 && t[0] != ls[0]
    ensures forall j :: |x| <= j < |x| + |ls| ==> !MatchesAt(x + ls + t, ls + ls, j)
  {
    var s := x + ls + t;
    var bs := ls + ls;
    forall j | |x| <= j < |x| + |ls| ensures !MatchesAt(s, bs, j) {
      var o := j - |x|;
      if j + |bs| <= |s| {
        assert s[j] == ls[o];
        assert s[j..j + |bs|][0] == s[j];
        if ls[o] == ls[0] {
          assert s[|x| + |ls|] == t[0];
          assert s[j..j + |bs|][|ls| - o] == s[|x| + |ls|];
          assert bs[|ls| - o] == ls[0];
        }
      }
    }
  }

  /** A match after a prefix is a match in the rest, shifted by the prefix. */
  lemma MatchShift(p: string, t: string, pat: string, j: nat)
    ensures MatchesAt(p + t, pat, |p| + j) <==> MatchesAt(t, pat, j)
  {
    if |p| + j + |pat| <= |p + t| {
      assert (p + t)[|p| + j..|p| + j + |pat|] == t[j..j + |pat|];
    }
  }

  /** No block separator (the line separator twice) starts inside a join of clean lines. */
  lemma {:induction false} NoBlockSeparatorInside(lines: seq<string>, ls: string, rest: string)
    requires Resynchronising(ls) && |lines| > 0 && CleanLines(lines, ls)
    ensures forall j :: 0 <= j < |Join(lines, ls)| ==> !MatchesAt(Join(lines, ls) + rest, ls + ls, j)
  {
    var x := lines[0];
    if |lines| == 1 {
      NoMatchInLine(x, rest, ls);
    } else {
      var J' := Join(lines[1..], ls);
      var t := J' + rest;
      assert Join(lines, ls) + rest == x + (ls + t) == x + ls + t;
      NoMatchInLine(x, ls + t, ls);
      assert lines[1..][0] == lines[1];
      JoinStartsWithFirst(lines[1..], ls);
      NoMatchInSeparator(x, ls, t);
      NoBlockSeparatorInside(lines[1..], ls, rest);
      forall j | |x| + |ls| <= j < |x| + |ls| + |J'| ensures !MatchesAt(x + ls + t, ls + ls, j) {
        MatchShift(x + ls, t, ls + ls, j - |x| - |ls|);
      }
    }
  }

  /**
   * A response made of clean header lines joined by a resynchronising line
   * separator, then the block separator, then anything, yields exactly those
   * header lines.
   */
  lemma HeaderLinesOf(lines: seq<string>, ls: string, t: string)
    requires Resynchronising(ls) && |lines| > 0 && CleanLines(lines, ls)
    ensures HeaderLines(Join(lines, ls) + (ls + ls) + t, ls + ls, ls) == lines
  {
    var J := Join(lines, ls);
    var bs := ls + ls;
    var s := J + bs + t;
    NoBlockSeparatorInside(lines, ls, bs + t);
    assert J + (bs + t) == s;
    assert s[|J|..|J| + |bs|] == bs;
    IndexOfFirst(s, bs, |J|);
    assert Split(s, bs)[0] == s[..|J|] == J;
    SplitJoin(lines, ls);
  }

  /**
   * As written, the parser reads a response whose line breaks are the escape
   * texts: with clean header lines it returns the first location line's value.
   */
  lemma EscapedResponseParsed(lines: seq<string>, t: string)
    requires |lines| > 0 && CleanLines(lines, EscapedLineSeparator)
    ensures HeaderLines(Join(lines, EscapedLineSeparator) + EscapedBlockSeparator + t,
                        EscapedBlockSeparator, EscapedLineSeparator) == lines
  {
    var ls := EscapedLineSeparator;
    assert ls + ls == EscapedBlockSeparator;
    assert Resynchronising(ls) by {
      forall o | 0 < o < |ls| && ls[o] == ls[0] ensures ls[|ls| - o] == ls[0] {
        assert o == 2;
      }
    }
    HeaderLinesOf(lines, ls, t);
  }

  /**
   * As written, a response without any backslash (every real SSDP response) is
   * one single header line: the whole text, CR LF breaks and body included.
   */
  lemma NoEscapesIsOneLine(response: string)
    requires '\\' !in response
    ensures HeaderLines(response, EscapedBlockSeparator, EscapedLineSeparator) == [response]
  {
    IndexOfAbsent(response, EscapedBlockSeparator);
    IndexOfAbsent(response, EscapedLineSeparator);
  }

  /**
   * Corrected: splitting on real CR LF, a response of clean header lines
   * (non-empty, no CR) followed by the empty line and any body yields the
   * trimmed value of the first line holding `LOCATION` and a colon.
   */
  lemma CrLfResponseParsed(lines: seq<string>, t: string)
    requires |lines| > 0 && CleanLines(lines, CrLf)
    ensures ParseDiscoveryResponseCrLf(Join(lines, CrLf) + CrLfCrLf + t)
         == match SearchLines(lines)
            case Some(url) => Success(HeosDevice(url))
            case None => Failure(InvalidResponse)
  {
    var ls := CrLf;
    assert ls + ls == CrLfCrLf;
    assert Resynchronising(ls);
    HeaderLinesOf(lines, ls, t);
  }

  /** The device location the library's own parser test expects. */
  const TestLocation: string := "http://10.0.8.87" + ":60006/upnp/desc" + "/aios_device" + "/aios_device.xml"

  /** The other ten header lines of the response in the library's parser test. */
  const TestStatusLine: string := "HTTP/1.1 200 OK"
  const TestCacheKey: string := "CACHE-CONTROL:"
  const TestCacheValue: string := "max-age=180"
  const TestCacheLine: string := TestCacheKey + " " + TestCacheValue
  const TestExtLine: string := "EXT:"
  const TestVersionsLine: string := "VERSIONS.UPNP.HEOS.COM: " + "10,668205267," + "801394619,363364703,"
    + "1840750642,105553199," + "-316033077,1711326982," + "-838802320,-170053632," + "363364703"
  const TestNetworkLine: string := "NETWORKID.UPNP.HEOS.COM: " + "d424dda645d7"
  const TestBootLine: string := "BOOTID.UPNP.ORG: " + "1947595085"
  const TestIpCacheLine: string := "IPCACHE.URL.UPNP.HEOS.COM: " + "/ajax/upnp/" + "get_device_info"
  const TestServerLine: string := "SERVER: LINUX UPnP/1.0 " + "Denon-Heos/" + "316763a47eba7769d9be" + "106fb4f3617c5393a2b7"
  const TestStLine: string := "ST: urn:schemas-denon-com:" + "device:ACT-Denon:1"
  const TestUsnLine: string := "USN: uuid:60f346a0-9018-" + "49e7-b77e-4a14ad25b96f" + "::urn:schemas-denon-com:" + "device:ACT-Denon:1"

  /**
   * The eleven header lines of the test's response, in order, with the given
   * location formatted into the fourth, as the test does with its location.
   */
  function TestHeaderLines(location: string): seq<string> {
    [TestStatusLine, TestCacheLine, TestExtLine, "LOCATION: " + location, TestVersionsLine, TestNetworkLine,
     TestBootLine, TestIpCacheLine, TestServerLine, TestStLine, TestUsnLine]
  }

  /** That response written with real CR LF, as devices send it: the lines, then the empty line. */
  function TestResponse(location: string): string {
    Join(TestHeaderLines(location), CrLf) + CrLfCrLf
  }

  /**
   * What the parser as written returns for it: the trimmed text after the colon
   * of `CACHE-CONTROL:`, that is `max-age=180` and every later header line,
   * joined by CR LF.
   */
  function TestMisreadValue(location: string): string {
    TestCacheValue + CrLf + Join(TestHeaderLines(location)[2..], CrLf)
  }

  /** A text holding neither CR nor a backslash. */
  predicate NoBreak(s: string) {
    '\r' !in s && '\\' !in s
  }

  /** A non-empty line holding neither CR nor a backslash. */
  predicate Plain(line: string) {
    |line| > 0 && NoBreak(line)
  }

  /** A location like the test's: plain, and starting and ending with a non-space. */
  predicate UsableLocation(location: string) {
    Plain(location) && !IsWhitespace(location[0]) && !IsWhitespace(location[|location| - 1])
  }

  /** Eleven plain lines: the shape of the test's header, stated without its text. */
  lemma ElevenPlain(xs: seq<string>)
    requires |xs| == 11
    requires Plain(xs[0]) && Plain(xs[1]) && Plain(xs[2]) && Plain(xs[3]) && Plain(xs[4]) && Plain(xs[5])
    requires Plain(xs[6]) && Plain(xs[7]) && Plain(xs[8]) && Plain(xs[9]) && Plain(xs[10])
    ensures forall i :: 0 <= i < |xs| ==> Plain(xs[i])
  {
  }

  // Each line is checked one text piece at a time: none holds CR or a backslash.

  lemma StatusLinePlain()
    ensures Plain(TestStatusLine) && Plain(TestExtLine)
  {
    assert NoBreak("HTTP/1.1 200 OK");
    assert NoBreak("EXT:");
  }

  lemma CacheLinePlain()
    ensures Plain(TestCacheLine)
  {
    assert NoBreak("CACHE-CONTROL:");
    assert NoBreak("max-age=180");
  }

  lemma LocationHeaderPlain(location: string)
    requires Plain(location)
    ensures Plain("LOCATION: " + location)
  {
    assert NoBreak("LOCATION: ");
  }

  lemma VersionsHeadNoBreak()
    ensures NoBreak("VERSIONS.UPNP.HEOS.COM: " + "10,668205267," + "801394619,363364703,")
  {
    assert NoBreak("VERSIONS.UPNP.HEOS.COM: ");
    assert NoBreak("10,668205267,");
    assert NoBreak("801394619,363364703,");
  }

  lemma VersionsLinePlain()
    ensures Plain(TestVersionsLine)
  {
    VersionsHeadNoBreak();
    assert NoBreak("1840750642,105553199,");
    assert NoBreak("-316033077,1711326982,");
    assert NoBreak("-838802320,-170053632,");
    assert NoBreak("363364703");
  }

  lemma NetworkLinePlain()
    ensures Plain(TestNetworkLine) && Plain(TestBootLine)
  {
    assert NoBreak("NETWORKID.UPNP.HEOS.COM: ");
    assert NoBreak("d424dda645d7");
    assert NoBreak("BOOTID.UPNP.ORG: ");
    assert NoBreak("1947595085");
  }

  lemma IpCacheLinePlain()
    ensures Plain(TestIpCacheLine)
  {
    assert NoBreak("IPCACHE.URL.UPNP.HEOS.COM: ");
    assert NoBreak("/ajax/upnp/");
    assert NoBreak("get_device_info");
  }

  lemma ServerLinePlain()
    ensures Plain(TestServerLine)
  {
    assert NoBreak("SERVER: LINUX UPnP/1.0 ");
    assert NoBreak("Denon-Heos/");
    assert NoBreak("316763a47eba7769d9be");
    assert NoBreak("106fb4f3617c5393a2b7");
  }

  lemma StLinePlain()
    ensures Plain(TestStLine)
  {
    assert NoBreak("ST: urn:schemas-denon-com:");
    assert NoBreak("device:ACT-Denon:1");
  }

  lemma UsnHeadNoBreak()
    ensures NoBreak("USN: uuid:60f346a0-9018-" + "49e7-b77e-4a14ad25b96f")
  {
    assert NoBreak("USN: uuid:60f346a0-9018-");
    assert NoBreak("49e7-b77e-4a14ad25b96f");
  }

  lemma UsnLinePlain()
    ensures Plain(TestUsnLine)
  {
    UsnHeadNoBreak();
    assert NoBreak("::urn:schemas-denon-com:");
    assert NoBreak("device:ACT-Denon:1");
  }

  lemma TestLinesPlain(location: string)
    requires Plain(location)
    ensures forall i :: 0 <= i < |TestHeaderLines(location)| ==> Plain(TestHeaderLines(location)[i])
  {
    StatusLinePlain();
    CacheLinePlain();
    LocationHeaderPlain(location);
    VersionsLinePlain();
    NetworkLinePlain();
    IpCacheLinePlain();
    ServerLinePlain();
    StLinePlain();
    UsnLinePlain();
    ElevenPlain(TestHeaderLines(location));
  }

  lemma SuffixOf(a: string, b: string)
    ensures (a + b)[|a|..] == b
  {
  }

  /** A `LOCATION: ` line's value is the trimmed text after the colon. */
  lemma LocationHeaderValue(v: string)
    requires |v| > 0 && !IsWhitespace(v[0]) && !IsWhitespace(v[|v| - 1])
    ensures IsLocationLine("LOCATION: " + v)
    ensures LocationValue("LOCATION: " + v) == v
  {
    var line := "LOCATION: " + v;
    assert MatchesAt(line, "LOCATION", 0);
    assert MatchesAt(line, ":", 8);
    IndexOfIs(line, ":", 8);
    assert line == "LOCATION:" + (" " + v);
    SuffixOf("LOCATION:", " " + v);
    TrimBetween(" ", v, "");
    assert " " + v + "" == " " + v;
  }

  /** The response cut after the colon of `CACHE-CONTROL:`. */
  lemma TestResponseShape(location: string)
    ensures TestResponse(location)
         == (TestStatusLine + CrLf + TestCacheKey) + (" " + TestMisreadValue(location) + CrLfCrLf)
  {
    var xs := TestHeaderLines(location);
    var rest := Join(xs[2..], CrLf);
    assert xs[1..][1..] == xs[2..];
    assert Join(xs[1..], CrLf) == TestCacheLine + CrLf + rest;
    assert Join(xs, CrLf) == TestStatusLine + CrLf + (TestCacheKey + " " + TestCacheValue + CrLf + rest);
  }

  /** The first colon of the status line and the `CACHE-CONTROL:` key is the key's own. */
  lemma TestHeadColon()
    ensures IndexOf(TestStatusLine + CrLf + TestCacheKey, ":") == Some(30)
  {
    var head := TestStatusLine + CrLf + TestCacheKey;
    assert MatchesAt(head, ":", 30) by {
      assert head[30..31] == [head[30]];
    }
    IndexOfIs(head, ":", 30);
  }

  /** The `LOCATION` line is part of the response. */
  lemma TestResponseHoldsLocation(location: string)
    ensures Contains(TestResponse(location), "LOCATION")
  {
    var xs := TestHeaderLines(location);
    assert MatchesAt(xs[3], "LOCATION", 0);
    JoinContains(xs, CrLf, 3, "LOCATION");
    ContainsWithin("", Join(xs, CrLf), CrLfCrLf, "LOCATION");
    assert "" + Join(xs, CrLf) + CrLfCrLf == TestResponse(location);
  }

  /** Read as one line, the test's response holds `LOCATION`, and its first colon is the one of `CACHE-CONTROL:`. */
  lemma TestResponseFirstColon(location: string)
    ensures IsLocationLine(TestResponse(location))
    ensures IndexOf(TestResponse(location), ":") == Some(30)
  {
    TestResponseShape(location);
    TestHeadColon();
    IndexOfPrefix(TestStatusLine + CrLf + TestCacheKey, " " + TestMisreadValue(location) + CrLfCrLf, ":", 30);
    TestResponseHoldsLocation(location);
  }

  /** The misread value starts with `max-age=180` and ends with the `1` closing the `USN` line. */
  lemma TestMisreadValueEnds(location: string)
    ensures StartsWith(TestMisreadValue(location), TestCacheValue)
    ensures !IsWhitespace(TestMisreadValue(location)[0])
    ensures !IsWhitespace(TestMisreadValue(location)[|TestMisreadValue(location)| - 1])
  {
    var v := TestMisreadValue(location);
    var rest := TestHeaderLines(location)[2..];
    assert v[..|TestCacheValue|] == TestCacheValue;
    assert rest[|rest| - 1] == TestUsnLine;
    assert TestUsnLine[|TestUsnLine| - 1] == '1';
    JoinLastChar(rest, CrLf);
    var j := Join(rest, CrLf);
    assert v[|v| - 1] == j[|j| - 1];
  }

  /** What follows that colon trims to `max-age=180` and all the later header lines. */
  lemma TestResponseAfterColon(location: string)
    ensures |TestResponse(location)| > 31 && Trim(TestResponse(location)[31..]) == TestMisreadValue(location)
  {
    TestResponseShape(location);
    SuffixOf(TestStatusLine + CrLf + TestCacheKey, " " + TestMisreadValue(location) + CrLfCrLf);
    TestMisreadValueEnds(location);
    TrimBetween(" ", TestMisreadValue(location), CrLfCrLf);
  }

  lemma TestResponseNoBackslash(location: string)
    requires Plain(location)
    ensures '\\' !in TestResponse(location)
  {
    TestLinesPlain(location);
    JoinAvoids(TestHeaderLines(location), CrLf, '\\');
  }

  /**
   * The discrepancy, as written, for the test's response with any plain
   * location: written with real CR LF breaks it holds no backslash, so it is
   * one single line; the first colon of that line is the one of
   * `CACHE-CONTROL:`, and the result is `max-age=180` followed by the rest of
   * the header.
   */
  lemma CrLfTestResponseMisparsed(location: string)
    requires Plain(location)
    ensures ParseHeaders(TestResponse(location), EscapedBlockSeparator, EscapedLineSeparator)
         == Success(HeosDevice(TestMisreadValue(location)))
  {
    var r := TestResponse(location);
    assert HeaderLines(r, EscapedBlockSeparator, EscapedLineSeparator) == [r] by {
      TestResponseNoBackslash(location);
      NoEscapesIsOneLine(r);
    }
    assert IsLocationLine(r) && LocationValue(r) == TestMisreadValue(location) by {
      TestResponseFirstColon(location);
      TestResponseAfterColon(location);
    }
    SearchLinesAt([r], 0);
    assert [r][0..] == [r];
  }

  /**
   * A search whose first three lines lack the letter `I` of `LOCATION`, and
   * whose fourth line is a location line, yields that line's value.
   */
  lemma SearchFourth(xs: seq<string>)
    requires |xs| >= 4 && IsLocationLine(xs[3])
    requires 'I' !in xs[0] && 'I' !in xs[1] && 'I' !in xs[2]
    ensures SearchLines(xs) == Some(LocationValue(xs[3]))
  {
    assert "LOCATION"[5] == 'I';
    IndexOfMissingChar(xs[0], "LOCATION", 5);
    IndexOfMissingChar(xs[1], "LOCATION", 5);
    IndexOfMissingChar(xs[2], "LOCATION", 5);
    SearchLinesAt(xs, 0);
    SearchLinesAt(xs, 1);
    SearchLinesAt(xs, 2);
    SearchLinesAt(xs, 3);
    assert xs[0..] == xs;
  }

  lemma TestFirstLinesNoLocation()
    ensures 'I' !in TestStatusLine && 'I' !in TestCacheLine && 'I' !in TestExtLine
  {
    assert 'I' !in TestCacheKey;
    assert 'I' !in TestCacheValue;
  }

  /**
   * Corrected, for the test's response with any usable location: splitting on
   * real CR LF yields its eleven header lines, the fourth is the first to hold
   * `LOCATION`, and the result is the location.
   */
  lemma CrLfTestResponseParsed(location: string)
    requires UsableLocation(location)
    ensures ParseDiscoveryResponseCrLf(TestResponse(location)) == Success(HeosDevice(location))
  {
    var xs := TestHeaderLines(location);
    TestLinesPlain(location);
    CrLfResponseParsed(xs, "");
    assert TestResponse(location) + "" == TestResponse(location);
    TestFirstLinesNoLocation();
    LocationHeaderValue(location);
    SearchFourth(xs);
  }

  /** The test's location is usable: plain, from `h` to `l`. */
  lemma TestLocationUsable()
    ensures UsableLocation(TestLocation)
  {
    assert NoBreak("http://10.0.8.87");
    assert NoBreak(":60006/upnp/desc");
    assert NoBreak("/aios_device");
    assert NoBreak("/aios_device.xml");
    assert TestLocation[0] == 'h';
    assert TestLocation[|TestLocation| - 1] == 'l';
  }

  /**
   * The discrepancy on the library's own test: its response, written with real
   * CR LF, yields `max-age=180` and the rest of the header instead of the URL.
   */
  lemma RealCrLfResponseMisparsed()
    ensures ParseHeaders(TestResponse(TestLocation), EscapedBlockSeparator, EscapedLineSeparator)
         == Success(HeosDevice(TestMisreadValue(TestLocation)))
    ensures StartsWith(TestMisreadValue(TestLocation), "max-age=180")
    ensures TestMisreadValue(TestLocation) != TestLocation
  {
    TestLocationUsable();
    CrLfTestResponseMisparsed(TestLocation);
    TestMisreadValueEnds(TestLocation);
    assert TestMisreadValue(TestLocation)[0] == 'm' != TestLocation[0];
  }

  /** Corrected, on the library's own test: the same response yields the test's URL. */
  lemma RealCrLfResponseParsed()
    ensures ParseDiscoveryResponseCrLf(TestResponse(TestLocation)) == Success(HeosDevice(TestLocation))
  {
    TestLocationUsable();
    CrLfTestResponseParsed(TestLocation);
  }
}

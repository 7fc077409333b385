/**
 * The Ubuntu 14.04 platform profile: the commands it runs on the remote
 * machine, the names it excludes from the integrity snapshot, how it finds
 * the machine's address in `ip address list` output, and the password
 * entry script it fills in and runs.
 */
module Platforms {
  import opened Common
  import opened Bytes
  import opened SshClient

  const PIPE_NAME: string := "/lib/cryptsetup/passfifo"
  const SUM_PROGRAM_LOCAL: string := "/usr/bin/sha256sum"
  const SUM_PROGRAM_REMOTE: string := "/root/file_sum"
  const PASSWORD_SCRIPT_REMOTE: string := "/root/pass_script"
  /** Hash every regular file of the root filesystem with the uploaded program, gzip the listing. */
  const SUM_COMMAND: string := "find / -type f -xdev -exec " + SUM_PROGRAM_REMOTE + " {} \\; | gzip"
  const SCRIPT_EXEC_COMMAND: string := ". " + PASSWORD_SCRIPT_REMOTE
  const CMD_IP_ADDR_LIST: string := "ip address list"

  // ---------------------------------------------------------------------
  // Exclusion globs
  // ---------------------------------------------------------------------

  /** A compiled glob: `*` matches any run of bytes (slashes included), anything else itself. */
  datatype GlobItem = AnyRun | Exactly(b: byte)

  const STAR: byte := 42

  /** The glob compiled item by item (the exclusion globs use no metacharacter but `*`). */
  function Translate(glob: Bytes): (p: seq<GlobItem>)
    ensures |p| == |glob|
  {
    if glob == [] then [] else [if glob[0] == STAR then AnyRun else Exactly(glob[0])] + Translate(glob[1..])
  }

  /** `pat.match(name)` of a translated glob: the whole name must match, since the translation ends in `\Z`. */
  predicate GlobMatch(p: seq<GlobItem>, s: Bytes)
    decreases |p| + |s|
  {
    if p == [] then s == []
    else match p[0]
      case AnyRun => GlobMatch(p[1..], s) || (s != [] && GlobMatch(p, s[1..]))
      case Exactly(b) => s != [] && s[0] == b && GlobMatch(p[1..], s[1..])
  }

  const EXCLUDE_FILES: seq<Bytes> := [Ascii("*.pid"), Ascii(SUM_PROGRAM_REMOTE)]

  /** Every glob of the list, compiled. */
  function TranslateAll(globs: seq<Bytes>): (ps: seq<seq<GlobItem>>)
    ensures |ps| == |globs|
    ensures forall i :: 0 <= i < |globs| ==> ps[i] == Translate(globs[i])
  {
    if globs == [] then [] else [Translate(globs[0])] + TranslateAll(globs[1..])
  }

  const EXCLUDE_PATTERNS: seq<seq<GlobItem>> := TranslateAll(EXCLUDE_FILES)

  /** Some exclusion pattern matches the name. */
  predicate IsExcluded(name: Bytes) {
    exists i :: 0 <= i < |EXCLUDE_PATTERNS| && GlobMatch(EXCLUDE_PATTERNS[i], name)
  }

  predicate NoStar(w: Bytes) {
    forall i :: 0 <= i < |w| ==> w[i] != STAR
  }

  predicate EndsWith(s: Bytes, w: Bytes) {
    |w| <= |s| && s[|s| - |w|..] == w
  }

  /** A glob without `*` matches exactly itself. */
  lemma {:induction false} GlobLiteral(w: Bytes, s: Bytes)
    requires NoStar(w)
    ensures GlobMatch(Translate(w), s) <==> s == w
  {
    if w != [] {
      assert Translate(w) == [Exactly(w[0])] + Translate(w[1..]);
      assert Translate(w)[1..] == Translate(w[1..]);
      if s != [] {
        GlobLiteral(w[1..], s[1..]);
        assert s == [s[0]] + s[1..] && w == [w[0]] + w[1..];
      }
    } else if s != [] {
      assert Translate(w) == [];
    }
  }

  /** A glob `*w`, w without `*`, matches exactly the names ending in w. */
  lemma {:induction false} GlobSuffix(w: Bytes, s: Bytes)
    requires NoStar(w)
    ensures GlobMatch(Translate([STAR] + w), s) <==> EndsWith(s, w)
    decreases |s|
  {
    var p := Translate([STAR] + w);
    assert p == [AnyRun] + Translate(w) by {
      assert ([STAR] + w)[1..] == w;
    }
    assert p[1..] == Translate(w);
    GlobLiteral(w, s);
    if s != [] {
      GlobSuffix(w, s[1..]);
      assert EndsWith(s[1..], w) <==> (EndsWith(s, w) && s != w) by {
        if |w| <= |s| - 1 {
          assert s[1..][|s| - 1 - |w|..] == s[|s| - |w|..];
        }
      }
    }
  }

  /** A path is excluded iff it ends in ".pid" or is the uploaded sum program. */
  lemma ExcludedIff(name: Bytes)
    ensures IsExcluded(name) <==> EndsWith(name, Ascii(".pid")) || name == Ascii(SUM_PROGRAM_REMOTE)
  {
    assert Ascii("*.pid") == [STAR] + Ascii(".pid");
    assert NoStar(Ascii(".pid"));
    assert NoStar(Ascii(SUM_PROGRAM_REMOTE));
    GlobSuffix(Ascii(".pid"), name);
    GlobLiteral(Ascii(SUM_PROGRAM_REMOTE), name);
    assert EXCLUDE_PATTERNS[0] == Translate([STAR] + Ascii(".pid"));
    assert EXCLUDE_PATTERNS[1] == Translate(Ascii(SUM_PROGRAM_REMOTE));
  }

  // ---------------------------------------------------------------------
  // The inet line matcher
  // ---------------------------------------------------------------------

  /** What the regular expression `\s` matches among ASCII characters. */
  predicate IsRegexSpace(c: char) {
    c as int == 32 || 9 <= c as int <= 13 || 28 <= c as int <= 31
  }

  predicate AllSpace(s: string) {
    forall i :: 0 <= i < |s| ==> IsRegexSpace(s[i])
  }

  predicate NoRegexSpace(s: string) {
    forall i :: 0 <= i < |s| ==> !IsRegexSpace(s[i])
  }

  /** `s` after its leading whitespace. */
  function SkipSpace(s: string): (r: string)
    ensures |r| <= |s| && r == s[|s| - |r|..]
    ensures AllSpace(s[..|s| - |r|])
    ensures r == [] || !IsRegexSpace(r[0])
  {
    if s != [] && IsRegexSpace(s[0]) then SkipSpace(s[1..]) else s
  }

  /** The leading run of non-whitespace characters of `s`. */
  function LeadingWord(s: string): (w: string)
    ensures |w| <= |s| && w == s[..|w|]
    ensures NoRegexSpace(w)
    ensures |w| < |s| ==> IsRegexSpace(s[|w|])
  {
    if s == [] || IsRegexSpace(s[0]) then [] else [s[0]] + LeadingWord(s[1..])
  }

  /** `s` without its trailing whitespace. */
  function TrimEnd(s: string): (t: string)
    ensures |t| <= |s| && t == s[..|t|]
    ensures AllSpace(s[|t|..])
    ensures t == [] || !IsRegexSpace(t[|t| - 1])
  {
    if s != [] && IsRegexSpace(s[|s| - 1]) then
      var t := TrimEnd(s[..|s| - 1]);
      assert s[|t|..] == s[..|s| - 1][|t|..] + [s[|s| - 1]];
      t
    else s
  }

  /** The trailing run of non-whitespace characters of `s`. */
  function TrailingWord(s: string): (w: string)
    ensures |w| <= |s| && w == s[|s| - |w|..]
    ensures NoRegexSpace(w)
    ensures |w| < |s| ==> IsRegexSpace(s[|s| - |w| - 1])
  {
    if s == [] || IsRegexSpace(s[|s| - 1]) then [] else TrailingWord(s[..|s| - 1]) + [s[|s| - 1]]
  }

  /** `r` starts with the word `inet` and one whitespace character. */
  predicate InetPrefix(r: string) {
    |r| >= 5 && r[0] == 'i' && r[1] == 'n' && r[2] == 'e' && r[3] == 't' && IsRegexSpace(r[4])
  }

  /**
   * `INET_MATCH(line)` with its groups (ip, dev): after optional whitespace,
   * the word `inet` and one whitespace character; ip is the run of
   * non-whitespace that follows; dev is the last word of the line, and there
   * must be one after ip.
   */
  function InetMatch(line: string): Option<(string, string)> {
    var r := SkipSpace(line);
    if !InetPrefix(r) then None
    else
      var rest := r[5..];
      var ip := LeadingWord(rest);
      var t := TrimEnd(rest[|ip|..]);
      if t == [] then None else Some((ip, TrailingWord(t)))
  }

  /**
   * The shape of a line the matcher accepts, split at the two groups. The
   * pattern's `.*` does not cross a newline, so `mid` stands for `.*\s+`
   * only on lines whose one LF, if any, is the last character; those are
   * the only lines the scan is given (`ScannedLinesInnerLF`).
   */
  ghost predicate InetLine(line: string, ip: string, dev: string) {
    exists lead: string, sp: char, mid: string, trail: string ::
      && line == lead + "inet" + [sp] + ip + mid + dev + trail
      && AllSpace(lead) && IsRegexSpace(sp) && NoRegexSpace(ip)
      && mid != [] && IsRegexSpace(mid[0]) && IsRegexSpace(mid[|mid| - 1])
      && dev != [] && NoRegexSpace(dev) && AllSpace(trail)
  }

  lemma {:induction false} SkipSpaceOf(lead: string, s: string)
    requires AllSpace(lead)
    requires s == [] || !IsRegexSpace(s[0])
    ensures SkipSpace(lead + s) == s
    decreases |lead|
  {
    if lead != [] {
      assert (lead + s)[1..] == lead[1..] + s;
      SkipSpaceOf(lead[1..], s);
    }
  }

  lemma {:induction false} LeadingWordOf(w: string, s: string)
    requires NoRegexSpace(w)
    requires s == [] || IsRegexSpace(s[0])
    ensures LeadingWord(w + s) == w
    decreases |w|
  {
    if w != [] {
      assert (w + s)[1..] == w[1..] + s;
      LeadingWordOf(w[1..], s);
    } else if s != [] {
      assert (w + s)[0] == s[0];
    }
  }

  lemma {:induction false} TrimEndOf(s: string, trail: string)
    requires AllSpace(trail)
    requires s == [] || !IsRegexSpace(s[|s| - 1])
    ensures TrimEnd(s + trail) == s
    decreases |trail|
  {
    var st := s + trail;
    if trail != [] {
      var init := trail[..|trail| - 1];
      assert st[..|st| - 1] == s + init;
      assert IsRegexSpace(st[|st| - 1]) by {
        assert st[|st| - 1] == trail[|trail| - 1];
      }
      TrimEndOf(s, init);
    } else {
      assert st == s;
    }
  }

  lemma {:induction false} TrailingWordOf(s: string, w: string)
    requires NoRegexSpace(w)
    requires s == [] || IsRegexSpace(s[|s| - 1])
    ensures TrailingWord(s + w) == w
    decreases |w|
  {
    var sw := s + w;
    if w == [] {
      assert sw == s;
    } else {
      var w' := w[..|w| - 1];
      assert sw[|sw| - 1] == w[|w| - 1];
      assert sw[..|sw| - 1] == s + w';
      TrailingWordOf(s, w');
      assert TrailingWord(sw) == w' + [w[|w| - 1]];
      assert w == w' + [w[|w| - 1]];
    }
  }

  /** Regrouping of a line's pieces; keeps the solver from searching for it. */
  lemma Regroup(lead: string, sp: char, ip: string, mid: string, dev: string, trail: string)
    ensures lead + "inet" + [sp] + ip + mid + dev + trail == lead + ("inet" + [sp] + (ip + ((mid + dev) + trail)))
  {
  }

  lemma InetLineIntro(line: string, ip: string, dev: string, lead: string, sp: char, mid: string, trail: string)
    requires line == lead + "inet" + [sp] + ip + mid + dev + trail
    requires AllSpace(lead) && IsRegexSpace(sp) && NoRegexSpace(ip)
    requires mid != [] && IsRegexSpace(mid[0]) && IsRegexSpace(mid[|mid| - 1])
    requires dev != [] && NoRegexSpace(dev) && AllSpace(trail)
    ensures InetLine(line, ip, dev)
  {
  }

  /** A cut point splits a string into two parts that rejoin to it. */
  lemma SplitAt(s: string, k: nat)
    requires k <= |s|
    ensures s == s[..k] + s[k..]
  {
  }

  /** A line cut into the pieces the matcher finds has the `InetLine` shape. */
  lemma ShapeOfPieces(line: string, lead: string, r: string, ip: string, after: string,
                      t: string, trail: string, mid: string, dev: string)
    requires line == lead + r && AllSpace(lead)
    requires InetPrefix(r)
    requires r[5..] == ip + after && NoRegexSpace(ip) && (after == [] || IsRegexSpace(after[0]))
    requires after == t + trail && AllSpace(trail) && t != [] && !IsRegexSpace(t[|t| - 1])
    requires t == mid + dev && NoRegexSpace(dev) && (mid == [] || IsRegexSpace(mid[|mid| - 1]))
    ensures InetLine(line, ip, dev)
  {
    assert after[0] == t[0];
    assert mid != [];
    assert mid[0] == t[0];
    assert dev != [];
    assert r == "inet" + [r[4]] + (ip + ((mid + dev) + trail)) by {
      assert r == r[..4] + [r[4]] + r[5..];
    }
    Regroup(lead, r[4], ip, mid, dev, trail);
    InetLineIntro(line, ip, dev, lead, r[4], mid, trail);
  }

  /** What a match says about the line, the matcher's definition unfolded once. */
  lemma InetMatchUnfold(line: string, ip: string, dev: string)
    requires InetMatch(line) == Some((ip, dev))
    ensures var r := SkipSpace(line);
            && InetPrefix(r)
            && ip == LeadingWord(r[5..])
            && TrimEnd(r[5..][|ip|..]) != []
            && dev == TrailingWord(TrimEnd(r[5..][|ip|..]))
  {
  }

  /** The cuts the matcher makes, stated as slices of the line, give the `InetLine` shape. */
  lemma ShapeOfCuts(line: string, r: string, ip: string, t: string, dev: string)
    requires |r| <= |line| && r == line[|line| - |r|..] && AllSpace(line[..|line| - |r|])
    requires InetPrefix(r)
    requires |ip| <= |r[5..]| && ip == r[5..][..|ip|] && NoRegexSpace(ip)
    requires |ip| < |r[5..]| ==> IsRegexSpace(r[5..][|ip|])
    requires var after := r[5..][|ip|..];
             && |t| <= |after| && t == after[..|t|] && AllSpace(after[|t|..])
             && t != [] && !IsRegexSpace(t[|t| - 1])
    requires |dev| <= |t| && dev == t[|t| - |dev|..] && NoRegexSpace(dev)
    requires |dev| < |t| ==> IsRegexSpace(t[|t| - |dev| - 1])
    ensures InetLine(line, ip, dev)
  {
    var lead := line[..|line| - |r|];
    var after := r[5..][|ip|..];
    var trail := after[|t|..];
    var mid := t[..|t| - |dev|];
    SplitAt(line, |line| - |r|);
    SplitAt(r[5..], |ip|);
    SplitAt(after, |t|);
    SplitAt(t, |t| - |dev|);
    assert after == [] || after[0] == r[5..][|ip|];
    assert mid == [] || mid[|mid| - 1] == t[|t| - |dev| - 1];
    ShapeOfPieces(line, lead, r, ip, after, t, trail, mid, dev);
  }

  lemma InetLineFromParts(line: string, ip: string, dev: string)
    requires var r := SkipSpace(line);
             && InetPrefix(r)
             && ip == LeadingWord(r[5..])
             && TrimEnd(r[5..][|ip|..]) != []
             && dev == TrailingWord(TrimEnd(r[5..][|ip|..]))
    ensures InetLine(line, ip, dev)
  {
    var r := SkipSpace(line);
    ShapeOfCuts(line, r, ip, TrimEnd(r[5..][|ip|..]), dev);
  }

  /** Every match splits the line into the `InetLine` shape around its groups. */
  lemma InetMatchSound(line: string, ip: string, dev: string)
    requires InetMatch(line) == Some((ip, dev))
    ensures InetLine(line, ip, dev)
  {
    InetMatchUnfold(line, ip, dev);
    InetLineFromParts(line, ip, dev);
  }

  /** Every line of `InetLine` shape matches, with those groups. */
  lemma InetMatchComplete(line: string, ip: string, dev: string, lead: string, sp: char, mid: string, trail: string)
    requires line == lead + "inet" + [sp] + ip + mid + dev + trail
    requires AllSpace(lead) && IsRegexSpace(sp) && NoRegexSpace(ip)
    requires mid != [] && IsRegexSpace(mid[0]) && IsRegexSpace(mid[|mid| - 1])
    requires dev != [] && NoRegexSpace(dev) && AllSpace(trail)
    ensures InetMatch(line) == Some((ip, dev))
  {
    var md := mid + dev;
    var after := md + trail;
    var rest := ip + after;
    var r := "inet" + [sp] + rest;
    Regroup(lead, sp, ip, mid, dev, trail);
    assert line == lead + r;
    SkipSpaceOf(lead, r);
    assert r[5..] == rest && InetPrefix(r) && r[4] == sp;
    assert after[0] == mid[0];
    LeadingWordOf(ip, after);
    assert rest[|ip|..] == after;
    assert md[|md| - 1] == dev[|dev| - 1];
    TrimEndOf(md, trail);
    TrailingWordOf(mid, dev);
  }

  /** The matcher accepts exactly the lines of `InetLine` shape, with those groups. */
  lemma InetMatchIff(line: string, ip: string, dev: string)
    ensures InetMatch(line) == Some((ip, dev)) <==> InetLine(line, ip, dev)
  {
    if InetMatch(line) == Some((ip, dev)) {
      InetMatchSound(line, ip, dev);
    }
    if InetLine(line, ip, dev) {
      var lead: string, sp: char, mid: string, trail: string :|
        && line == lead + "inet" + [sp] + ip + mid + dev + trail
        && AllSpace(lead) && IsRegexSpace(sp) && NoRegexSpace(ip)
        && mid != [] && IsRegexSpace(mid[0]) && IsRegexSpace(mid[|mid| - 1])
        && dev != [] && NoRegexSpace(dev) && AllSpace(trail);
      InetMatchComplete(line, ip, dev, lead, sp, mid, trail);
    }
  }

  /** The word `inet6` never matches: `inet` must be followed by whitespace. */
  lemma Inet6NeverMatches(lead: string, rest: string)
    requires AllSpace(lead)
    ensures InetMatch(lead + ("inet6" + rest)) == None
  {
    var r := "inet6" + rest;
    assert r[4] == '6';
    SkipSpaceOf(lead, r);
  }

  // ---------------------------------------------------------------------
  // Choosing the address: `_get_ip_and_dev`
  // ---------------------------------------------------------------------

  /** The line matches with a device other than the loopback. */
  predicate IsExternalInet(line: string) {
    InetMatch(line).Some? && InetMatch(line).value.1 != "lo"
  }

  /** The (ip, dev) of the first line that matches with a device other than `lo`. */
  function FindAddress(lines: seq<string>): Option<(string, string)> {
    FindWith(lines, IsExternalInet, InetMatch)
  }

  /** What `m` gives on the first line satisfying `p`, or nothing when no line does. */
  function FindWith(lines: seq<string>, p: string -> bool, m: string -> Option<(string, string)>): Option<(string, string)> {
    if lines == [] then None
    else if p(lines[0]) then m(lines[0])
    else FindWith(lines[1..], p, m)
  }

  /** `FindWith` is `m` of the line `FirstWhere` selects. */
  lemma {:induction false} FindWithFirst(lines: seq<string>, p: string -> bool, m: string -> Option<(string, string)>)
    ensures var i := FirstWhere(lines, p);
            FindWith(lines, p, m) == if i < |lines| then m(lines[i]) else None
  {
    if lines != [] && !p(lines[0]) {
      var tail := lines[1..];
      FindWithFirst(tail, p, m);
      var i := FirstWhere(tail, p);
      if i < |tail| {
        assert tail[i] == lines[1 + i];
      }
    }
  }

  /** The index of the first line satisfying `p`, or the number of lines when there is none. */
  function FirstWhere(lines: seq<string>, p: string -> bool): (i: nat)
    ensures i <= |lines|
  {
    if lines == [] || p(lines[0]) then 0 else 1 + FirstWhere(lines[1..], p)
  }

  /** `FirstWhere` is the least index of a line satisfying `p`. */
  lemma {:induction false} FirstWhereLeast(lines: seq<string>, p: string -> bool)
    ensures var i := FirstWhere(lines, p);
            && (i < |lines| ==> p(lines[i]))
            && forall j :: 0 <= j < i ==> !p(lines[j])
  {
    if lines != [] && !p(lines[0]) {
      var tail := lines[1..];
      FirstWhereLeast(tail, p);
      assert forall j :: 0 <= j < |tail| ==> tail[j] == lines[j + 1];
    }
  }

  /** The index of the first external inet line, or the number of lines when there is none. */
  function FirstExternal(lines: seq<string>): (i: nat)
    ensures i <= |lines|
  {
    FirstWhere(lines, IsExternalInet)
  }

  /** `FirstExternal` is the least index of an external inet line. */
  lemma FirstExternalLeast(lines: seq<string>)
    ensures var i := FirstExternal(lines);
            && (i < |lines| ==> IsExternalInet(lines[i]))
            && forall j :: 0 <= j < i ==> !IsExternalInet(lines[j])
  {
    FirstWhereLeast(lines, IsExternalInet);
  }

  /**
   * An address is found iff some line is an external inet line, and then it
   * is the groups of the first such line.
   */
  lemma FindAddressFirst(lines: seq<string>)
    ensures var i := FirstExternal(lines);
            FindAddress(lines) == if i < |lines| then InetMatch(lines[i]) else None
  {
    FindWithFirst(lines, IsExternalInet, InetMatch);
  }

  lemma FindAddressSome(lines: seq<string>)
    ensures FindAddress(lines).Some? <==> exists i :: 0 <= i < |lines| && IsExternalInet(lines[i])
  {
    FindAddressFirst(lines);
    FirstExternalLeast(lines);
  }

  /** The for/else loop over the output lines, breaking at the first non-loopback match. */
  method SelectAddress(lines: seq<string>) returns (r: Option<(string, string)>)
    ensures r == FindAddress(lines)
  {
    var ip: string, dev: string;
    var broke := false;
    var k := 0;
    while k < |lines|
      invariant 0 <= k <= |lines|
      invariant !broke ==> FindAddress(lines) == FindAddress(lines[k..])
      invariant broke ==> FindAddress(lines) == Some((ip, dev))
      invariant broke ==> k < |lines|
      decreases |lines| - k, !broke
    {
      var m := InetMatch(lines[k]);
      if m.Some? {
        ip, dev := m.value.0, m.value.1;
        if dev != "lo" {
          broke := true;
          break;
        }
      }
      assert lines[k..][1..] == lines[k + 1..];
      k := k + 1;
    }
    if !broke {
      return None;
    }
    r := Some((ip, dev));
  }

  function DecodeLines(ls: seq<Bytes>): (r: seq<string>)
    ensures |r| == |ls|
  {
    seq(|ls|, i requires 0 <= i < |ls| => Decode(ls[i]))
  }

  /** The decoded output lines of a command hold a newline at most as their last character. */
  lemma ScannedLinesInnerLF(out: Bytes)
    ensures var ls := DecodeLines(Lines(out));
            forall i, j :: 0 <= i < |ls| && 0 <= j < |ls[i]| - 1 ==> ls[i][j] != '\n'
  {
    LinesInnerLF(out);
  }

  /** What `_get_ip_and_dev` returns for the answer to `ip address list`: nothing when the exit code is positive. */
  function IpAndDev(res: ExecResult): Option<(string, string)> {
    if res.code > 0 then None else FindAddress(DecodeLines(Lines(res.out)))
  }

  method GetIpAndDev(client: Client) returns (r: Option<(string, string)>)
    modifies client
    ensures client.calls == old(client.calls) + [Call.Exec(CMD_IP_ADDR_LIST)]
    ensures r == IpAndDev(client.remote.respond(CMD_IP_ADDR_LIST))
  {
    var res := client.ExecCommandOutputOnly(CMD_IP_ADDR_LIST);
    if res.code > 0 {
      return None;
    }
    r := SelectAddress(DecodeLines(Lines(res.out)));
  }

  // ---------------------------------------------------------------------
  // The password entry script
  // ---------------------------------------------------------------------

  /** A `str.format` template: literal text and named replacement fields. */
  datatype Piece = Text(text: string) | Field(name: string)

  const PASSWORD_ENTRY_SCRIPT: seq<Piece> := [
    Text("\necho 'Stopping plymouth...'\nplymouth --wait quit\n"
         + "echo 'Waiting for plymouth to stop and the cryptosetup to restart...'\n"
         + "while [ ! -p "), Field("pipe_name"),
    Text(" ]; do\n    sleep 1\n    echo 'Still waiting...'\ndone\n"
         + "echo 'Ready for password entry, taking the network down'\nsleep 2\n"
         + "ip address del "), Field("ip_address"), Text(" dev "), Field("dev"),
    Text("\nip link set dev "), Field("dev"), Text(" down\necho -ne '"), Field("password"),
    Text("' > "), Field("pipe_name"), Text("\nexit\n")
  ]

  predicate Binds(t: seq<Piece>, values: map<string, string>) {
    forall i :: 0 <= i < |t| && t[i].Field? ==> t[i].name in values
  }

  /** The text one piece stands for; `None` for a field without a value. */
  function PieceText(p: Piece, values: map<string, string>): Option<string> {
    match p
    case Text(s) => Some(s)
    case Field(n) => if n in values then Some(values[n]) else None
  }

  /** Both parts formatted, glued; a failure of either is a failure of the whole. */
  function Glue(a: Option<string>, b: Option<string>): Option<string> {
    if a.None? || b.None? then None else Some(a.value + b.value)
  }

  /** `template.format(**values)`; `None` is the KeyError of a field without a value. */
  function Format(t: seq<Piece>, values: map<string, string>): Option<string> {
    if t == [] then Some("") else Glue(PieceText(t[0], values), Format(t[1..], values))
  }

  /** Formatting fails iff some field has no value. */
  lemma {:induction false} FormatDefined(t: seq<Piece>, values: map<string, string>)
    ensures Format(t, values).Some? <==> Binds(t, values)
  {
    if t != [] {
      FormatDefined(t[1..], values);
      assert forall i :: 0 < i < |t| ==> t[i] == t[1..][i - 1];
    }
  }

  /** Formatting a concatenation of templates glues the two results. */
  lemma {:induction false} FormatAppend(t1: seq<Piece>, t2: seq<Piece>, values: map<string, string>)
    ensures Format(t1 + t2, values) == Glue(Format(t1, values), Format(t2, values))
  {
    if t1 == [] {
      assert t1 + t2 == t2;
      if Format(t2, values).Some? {
        assert "" + Format(t2, values).value == Format(t2, values).value;
      }
    } else {
      assert (t1 + t2)[0] == t1[0];
      assert (t1 + t2)[1..] == t1[1..] + t2;
      FormatAppend(t1[1..], t2, values);
      var h := PieceText(t1[0], values);
      var f1 := Format(t1[1..], values);
      var f2 := Format(t2, values);
      if h.Some? && f1.Some? && f2.Some? {
        assert h.value + (f1.value + f2.value) == (h.value + f1.value) + f2.value;
      }
    }
  }

  lemma FormatCons(p: Piece, t: seq<Piece>, values: map<string, string>)
    ensures Format([p] + t, values) == Glue(PieceText(p, values), Format(t, values))
  {
    assert ([p] + t)[1..] == t;
  }

  function ScriptValues(ip: string, dev: string, password: string): map<string, string> {
    map["ip_address" := ip, "dev" := dev, "password" := password, "pipe_name" := PIPE_NAME]
  }

  /** The filled-in script (every field of the template has a value). */
  function PasswordScript(ip: string, dev: string, password: string): string {
    FormatDefined(PASSWORD_ENTRY_SCRIPT, ScriptValues(ip, dev, password));
    Format(PASSWORD_ENTRY_SCRIPT, ScriptValues(ip, dev, password)).value
  }

  /**
   * The script up to the secret: it waits for the pipe and takes the
   * interface down, and does not depend on the password.
   */
  function ScriptBeforeSecret(ip: string, dev: string): string {
    PASSWORD_ENTRY_SCRIPT[0].text + (PIPE_NAME + (PASSWORD_ENTRY_SCRIPT[2].text + (ip + (" dev " + (dev
      + ("\nip link set dev " + (dev + " down\necho -ne '")))))))
  }

  /** The last command: the secret written into the pipe, then `exit`. */
  function SecretLine(password: string): string {
    password + ("' > " + (PIPE_NAME + "\nexit\n"))
  }

  lemma FormatBeforeSecret(ip: string, dev: string, password: string)
    ensures Format(PASSWORD_ENTRY_SCRIPT[..9], ScriptValues(ip, dev, password)) == Some(ScriptBeforeSecret(ip, dev))
  {
    var v := ScriptValues(ip, dev, password);
    var t := PASSWORD_ENTRY_SCRIPT;
    var s8 := t[8..9];
    var s7 := [t[7]] + s8;
    var s6 := [t[6]] + s7;
    var s5 := [t[5]] + s6;
    var s4 := [t[4]] + s5;
    var s3 := [t[3]] + s4;
    var s2 := [t[2]] + s3;
    var s1 := [t[1]] + s2;
    var s0 := [t[0]] + s1;
    assert s8 == [t[8]] + [];
    assert t[..9] == s0;
    FormatCons(t[8], [], v);
    assert t[8].text + "" == t[8].text;
    FormatCons(t[7], s8, v);
    FormatCons(t[6], s7, v);
    FormatCons(t[5], s6, v);
    FormatCons(t[4], s5, v);
    FormatCons(t[3], s4, v);
    FormatCons(t[2], s3, v);
    FormatCons(t[1], s2, v);
    FormatCons(t[0], s1, v);
  }

  lemma FormatSecretLine(ip: string, dev: string, password: string)
    ensures Format(PASSWORD_ENTRY_SCRIPT[9..], ScriptValues(ip, dev, password)) == Some(SecretLine(password))
  {
    var v := ScriptValues(ip, dev, password);
    var t := PASSWORD_ENTRY_SCRIPT;
    var s12 := t[12..];
    var s11 := [t[11]] + s12;
    var s10 := [t[10]] + s11;
    var s9 := [t[9]] + s10;
    assert s12 == [t[12]] + [];
    assert t[9..] == s9;
    FormatCons(t[12], [], v);
    assert t[12].text + "" == t[12].text;
    FormatCons(t[11], s12, v);
    FormatCons(t[10], s11, v);
    FormatCons(t[9], s10, v);
  }

  /**
   * The password occurs in the script only in its last command, which writes
   * it into the cryptsetup pipe after the address is deleted and the device
   * taken down.
   */
  lemma SecretWrittenLast(ip: string, dev: string, password: string)
    ensures PasswordScript(ip, dev, password) == ScriptBeforeSecret(ip, dev) + SecretLine(password)
  {
    var t := PASSWORD_ENTRY_SCRIPT;
    assert t == t[..9] + t[9..];
    FormatAppend(t[..9], t[9..], ScriptValues(ip, dev, password));
    FormatBeforeSecret(ip, dev, password);
    FormatSecretLine(ip, dev, password);
  }

  // ---------------------------------------------------------------------
  // The platform's operations on the client
  // ---------------------------------------------------------------------

  /** The sums listing `get_remote_sums` hands on: the command's output when it exits with 0, else nothing. */
  function SumsOutput(remote: RemoteHost): Option<Bytes> {
    var res := remote.respond(SUM_COMMAND);
    if res.code == 0 then Some(res.out) else None
  }

  /** Upload the sum program, run it over the filesystem, remove it whatever the exit code. */
  method GetRemoteSums(client: Client) returns (sums: Option<Bytes>)
    modifies client
    ensures client.calls == old(client.calls) + [Call.SendFile(SUM_PROGRAM_LOCAL, SUM_PROGRAM_REMOTE),
                                                 Call.Chmod(SUM_PROGRAM_REMOTE, "755"),
                                                 Call.Exec(SUM_COMMAND),
                                                 Call.Rm(SUM_PROGRAM_REMOTE)]
    ensures sums.Some? <==> client.remote.respond(SUM_COMMAND).code == 0
    ensures sums.Some? ==> sums.value == client.remote.respond(SUM_COMMAND).out
  {
    client.SendFile(SUM_PROGRAM_LOCAL, SUM_PROGRAM_REMOTE);
    client.Chmod(SUM_PROGRAM_REMOTE, "755");
    var res := client.ExecCommandOutputOnly(SUM_COMMAND);
    client.Rm(SUM_PROGRAM_REMOTE);
    if res.code != 0 {
      return None;
    }
    sums := Some(res.out);
  }

  /** Find the address, then upload and run the filled-in script; false, with nothing sent, when no address is found. */
  method EnterPassword(client: Client, password: string) returns (ok: bool)
    modifies client
    ensures var a := IpAndDev(client.remote.respond(CMD_IP_ADDR_LIST));
            && ok == a.Some?
            && client.calls == old(client.calls) + [Call.Exec(CMD_IP_ADDR_LIST)]
                 + if ok then [Call.SendFileObj(PasswordScript(a.value.0, a.value.1, password), PASSWORD_SCRIPT_REMOTE),
                               Call.Exec(SCRIPT_EXEC_COMMAND)]
                   else []
  {
    var a := GetIpAndDev(client);
    if a.None? {
      return false;
    }
    var script := PasswordScript(a.value.0, a.value.1, password);
    client.SendFileObj(script, PASSWORD_SCRIPT_REMOTE);
    var _ := client.ExecCommandOutputOnly(SCRIPT_EXEC_COMMAND);
    ok := true;
  }
}

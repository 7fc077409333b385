/**
 * The command line and the control flow of `safestart`: the hand-written
 * `key=value` tokenizer, the choice of the known-hosts file, and the
 * per-host sequence connect / fetch sums / update or compare / unlock,
 * which releases the disk passphrase only when the tripwire check passes
 * (or is skipped on request).
 */
module SafeStart {
  import opened Common
  import opened Bytes
  import opened SshClient
  import Platforms
  import opened TripwireFormat
  import opened TripwireDiff
  import opened Tripwire

  // ---------------------------------------------------------------------
  // `str.strip(STRIP_QUOTES)`
  // ---------------------------------------------------------------------

  /** The characters stripped from both ends of every token. */
  const STRIP_QUOTES: string := "'\"\t\r\n "

  predicate IsQuote(c: char) {
    c in STRIP_QUOTES
  }

  predicate AllQuotes(s: string) {
    forall k :: 0 <= k < |s| ==> IsQuote(s[k])
  }

  /** Neither end of `s` is a stripped character. */
  predicate Trimmed(s: string) {
    s == [] || (!IsQuote(s[0]) && !IsQuote(s[|s| - 1]))
  }

  /** The index of the first character that is not stripped (or the length). */
  function SkipLeft(s: string): (i: nat)
    ensures i <= |s|
    ensures forall k :: 0 <= k < i ==> IsQuote(s[k])
    ensures i < |s| ==> !IsQuote(s[i])
  {
    if s == [] || !IsQuote(s[0]) then 0 else 1 + SkipLeft(s[1..])
  }

  /** The end of `s` once the stripped characters after `lo` are cut off. */
  function SkipRight(s: string, lo: nat): (j: nat)
    requires lo <= |s|
    ensures lo <= j <= |s|
    ensures forall k :: j <= k < |s| ==> IsQuote(s[k])
    ensures j > lo ==> !IsQuote(s[j - 1])
  {
    if |s| == lo || !IsQuote(s[|s| - 1]) then |s| else SkipRight(s[..|s| - 1], lo)
  }

  /** `s.strip(STRIP_QUOTES)`. */
  function Strip(s: string): (r: string)
    ensures |r| <= |s| && Trimmed(r)
  {
    var i := SkipLeft(s);
    s[i..SkipRight(s, i)]
  }

  /** A string with no stripped character at either end is its own strip. */
  lemma StripTrimmed(t: string)
    requires Trimmed(t)
    ensures Strip(t) == t
  {
    StripExact([], t, []);
    assert [] + t + [] == t;
  }

  /** Strip removes exactly the quoting around a trimmed text. */
  lemma StripExact(pre: string, t: string, post: string)
    requires AllQuotes(pre) && AllQuotes(post) && Trimmed(t)
    ensures Strip(pre + t + post) == t
  {
    var s := pre + t + post;
    var i := SkipLeft(s);
    if t == [] {
      assert AllQuotes(s) by {
        forall k | 0 <= k < |s|
          ensures IsQuote(s[k])
        {
          if k < |pre| {
            assert s[k] == pre[k];
          } else {
            assert s[k] == post[k - |pre|];
          }
        }
      }
    } else {
      assert s[|pre|] == t[0];
      assert forall k :: 0 <= k < |pre| ==> s[k] == pre[k];
      assert i == |pre|;
      var m := |pre| + |t|;
      var j := SkipRight(s, i);
      assert s[m - 1] == t[|t| - 1];
      assert forall k :: m <= k < |s| ==> s[k] == post[k - m];
      assert j == m;
      assert s[i..j] == t;
    }
  }

  /** Stripping twice is stripping once. */
  lemma StripIdempotent(s: string)
    ensures Strip(Strip(s)) == Strip(s)
  {
    StripExact([], Strip(s), []);
    assert [] + Strip(s) + [] == Strip(s);
  }

  // ---------------------------------------------------------------------
  // `parse_arguments`
  // ---------------------------------------------------------------------

  /** The position of the first `=`, where `str.split('=', 1)` cuts. */
  function FindEq(s: string): (r: Option<nat>)
    ensures r.None? ==> '=' !in s
    ensures r.Some? ==> r.value < |s| && s[r.value] == '=' && '=' !in s[..r.value]
  {
    if s == [] then None
    else if s[0] == '=' then Some(0)
    else match FindEq(s[1..])
      case None => None
      case Some(i) => Some(i + 1)
  }

  /** The parsed arguments: a key maps to its value, or to `None` when it was given bare. */
  type Args = map<string, Option<string>>

  /** The IndexError of `[0]` on a look-ahead token that strips to nothing. */
  datatype ArgError = EmptyLookAhead(loc: nat)

  /** The loop state of `parse_arguments`: the dictionary and the skip counter `eat_me`. */
  datatype ParseState = ParseState(args: Args, eatMe: nat)

  /**
   * One iteration of the loop of `parse_arguments`, on the token at `loc`.
   * `skipsValue` says whether `key= value` skips the value token: the code
   * as written does not (so the value is parsed again as a key of its own);
   * the intended loop does.
   */
  function Step(argList: seq<string>, loc: nat, st: ParseState, skipsValue: bool): (r: Result<ParseState, ArgError>)
    requires loc < |argList|
    ensures r.Ok? && st.eatMe > 0 ==> r.value == ParseState(st.args, st.eatMe - 1)
    ensures r.Ok? && st.eatMe == 0 ==> loc + r.value.eatMe < |argList|
  {
    if st.eatMe > 0 then Ok(ParseState(st.args, st.eatMe - 1))
    else
      var arg := Strip(argList[loc]);
      match FindEq(arg)
      case None =>
        if loc + 1 < |argList| then
          var next := Strip(argList[loc + 1]);
          if next == [] then Err(EmptyLookAhead(loc + 1))
          else if next[0] == '=' then
            if |next| == 1 && loc + 2 < |argList| then
              var extended := next + Strip(argList[loc + 2]);
              Ok(ParseState(st.args[arg := Some(extended[1..])], 2))
            else
              Ok(ParseState(st.args[arg := Some(next[1..])], 1))
          else Ok(ParseState(st.args[arg := None], 0))
        else Ok(ParseState(st.args[arg := None], 0))
      case Some(i) =>
        var key, value := arg[..i], arg[i + 1..];
        if |value| > 0 then Ok(ParseState(st.args[key := Some(Strip(value))], 0))
        else if loc + 1 < |argList| then
          Ok(ParseState(st.args[key := Some(Strip(argList[loc + 1]))], if skipsValue then 1 else 0))
        else Ok(ParseState(st.args[key := Some("")], 0))
  }

  /** The loop state after the first `k` tokens. */
  function ParseUpTo(argList: seq<string>, k: nat, skipsValue: bool): Result<ParseState, ArgError>
    requires k <= |argList|
  {
    if k == 0 then Ok(ParseState(map[], 0))
    else
      match ParseUpTo(argList, k - 1, skipsValue)
      case Err(e) => Err(e)
      case Ok(st) => Step(argList, k - 1, st, skipsValue)
  }

  /** What `parse_arguments` returns, or the IndexError it raises, with `key= value` skipping its value. */
  function ParseArgs(argList: seq<string>): Result<Args, ArgError> {
    match ParseUpTo(argList, |argList|, true)
    case Err(e) => Err(e)
    case Ok(st) => Ok(st.args)
  }

  /** What `parse_arguments` as written returns: `key= value` leaves its value to be parsed again. */
  function ParseArgsAsWritten(argList: seq<string>): Result<Args, ArgError> {
    match ParseUpTo(argList, |argList|, false)
    case Err(e) => Err(e)
    case Ok(st) => Ok(st.args)
  }

  /** Once the loop has raised, the whole call raises the same error. */
  lemma {:induction false} ParseUpToErr(argList: seq<string>, k: nat, n: nat, skipsValue: bool)
    requires k <= n <= |argList| && ParseUpTo(argList, k, skipsValue).Err?
    ensures ParseUpTo(argList, n, skipsValue) == ParseUpTo(argList, k, skipsValue)
    decreases n - k
  {
    if k < n {
      ParseUpToErr(argList, k + 1, n, skipsValue);
    }
  }

  /** The skip counter never promises more tokens than remain. */
  lemma {:induction false} EatMeBound(argList: seq<string>, k: nat, skipsValue: bool)
    requires k <= |argList| && ParseUpTo(argList, k, skipsValue).Ok?
    ensures ParseUpTo(argList, k, skipsValue).value.eatMe <= |argList| - k
  {
    if k > 0 {
      var prev := ParseUpTo(argList, k - 1, skipsValue);
      assert prev.Ok?;
      EatMeBound(argList, k - 1, skipsValue);
    }
  }

  /** So the counter is back at zero when the loop ends: the final assertion never fires. */
  lemma EatMeDrained(argList: seq<string>, skipsValue: bool)
    requires ParseUpTo(argList, |argList|, skipsValue).Ok?
    ensures ParseUpTo(argList, |argList|, skipsValue).value.eatMe == 0
  {
    EatMeBound(argList, |argList|, skipsValue);
  }

  /**
   * `parse_arguments`: one pass over the tokens, skipping those a look-ahead
   * consumed. With `skipsValue` false it is the loop as written; with
   * `skipsValue` true, `key= value` also skips its value token.
   */
  method ParseArguments(argList: seq<string>, skipsValue: bool) returns (r: Result<Args, ArgError>)
    ensures r == if skipsValue then ParseArgs(argList) else ParseArgsAsWritten(argList)
  {
    var args: Args := map[];
    var eatMe := 0;
    for loc := 0 to |argList|
      invariant ParseUpTo(argList, loc, skipsValue) == Ok(ParseState(args, eatMe))
    {
      if eatMe > 0 {
        eatMe := eatMe - 1;
        continue;
      }
      var arg := Strip(argList[loc]);
      var split := FindEq(arg);
      if split.None? {
        if loc + 1 < |argList| {
          var next := Strip(argList[loc + 1]);
          if |next| == 0 {
            ParseUpToErr(argList, loc + 1, |argList|, skipsValue);
            return Err(EmptyLookAhead(loc + 1));
          }
          if next[0] == '=' {
            var extended := next;
            eatMe := 1;
            if |extended| == 1 && loc + 2 < |argList| {
              extended := extended + Strip(argList[loc + 2]);
              eatMe := 2;
            }
            args := args[arg := Some(extended[1..])];
          } else {
            args := args[arg := None];
          }
        } else {
          args := args[arg := None];
        }
      } else {
        var key, value := arg[..split.value], arg[split.value + 1..];
        if |value| > 0 {
          args := args[key := Some(Strip(value))];
        } else if loc + 1 < |argList| {
          args := args[key := Some(Strip(argList[loc + 1]))];
          eatMe := if skipsValue then 1 else 0;
        } else {
          args := args[key := Some("")];
        }
      }
    }
    EatMeDrained(argList, skipsValue);
    assert eatMe == 0;
    r := Ok(args);
  }

  /** `key=value`: the value, stripped, is stored, and the next token is parsed on its own. */
  lemma KeyEqualsValue(argList: seq<string>, loc: nat, st: ParseState, key: string, value: string, skipsValue: bool)
    requires loc < |argList| && ParseUpTo(argList, loc, skipsValue) == Ok(st) && st.eatMe == 0
    requires Strip(argList[loc]) == key + "=" + value && '=' !in key && value != ""
    ensures ParseUpTo(argList, loc + 1, skipsValue) == Ok(ParseState(st.args[key := Some(Strip(value))], 0))
  {
    var arg := key + "=" + value;
    assert arg[|key|] == '=' && arg[..|key|] == key && arg[|key| + 1..] == value;
    assert FindEq(arg) == Some(|key|);
  }

  /** `key= value`: the following token is the value, and it is skipped. */
  lemma KeyEqualsNext(argList: seq<string>, loc: nat, st: ParseState, key: string)
    requires loc + 1 < |argList| && ParseUpTo(argList, loc, true) == Ok(st) && st.eatMe == 0
    requires Strip(argList[loc]) == key + "=" && '=' !in key
    ensures ParseUpTo(argList, loc + 2, true) == Ok(ParseState(st.args[key := Some(Strip(argList[loc + 1]))], 0))
  {
    var arg := key + "=";
    assert arg[|key|] == '=' && arg[..|key|] == key && arg[|key| + 1..] == [];
    assert FindEq(arg) == Some(|key|);
    assert ParseUpTo(argList, loc + 1, true) == Ok(ParseState(st.args[key := Some(Strip(argList[loc + 1]))], 1));
  }

  /**
   * As written, `key= value` does not skip the value token, so a value
   * without `=` (and not followed by an `=` token) also becomes a bare key.
   */
  lemma ValueParsedAsKey(argList: seq<string>, loc: nat, st: ParseState, key: string)
    requires loc + 1 < |argList| && ParseUpTo(argList, loc, false) == Ok(st) && st.eatMe == 0
    requires Strip(argList[loc]) == key + "=" && '=' !in key
    requires '=' !in Strip(argList[loc + 1])
    requires loc + 2 < |argList| ==> Strip(argList[loc + 2]) != [] && Strip(argList[loc + 2])[0] != '='
    ensures var value := Strip(argList[loc + 1]);
            ParseUpTo(argList, loc + 2, false) == Ok(ParseState(st.args[key := Some(value)][value := None], 0))
  {
    var arg := key + "=";
    assert arg[|key|] == '=' && arg[..|key|] == key && arg[|key| + 1..] == [];
    assert FindEq(arg) == Some(|key|);
    var value := Strip(argList[loc + 1]);
    assert ParseUpTo(argList, loc + 1, false) == Ok(ParseState(st.args[key := Some(value)], 0));
  }

  /**
   * Two tokens `key= value` and nothing after them: as written both the key
   * and the value become keys; as intended only the key does.
   */
  lemma KeySpaceValueAlone(argList: seq<string>, key: string, value: string)
    requires |argList| == 2 && Strip(argList[0]) == key + "=" && Strip(argList[1]) == value
    requires '=' !in key && '=' !in value
    ensures ParseArgsAsWritten(argList) == Ok(map[key := Some(value)][value := None])
    ensures ParseArgs(argList) == Ok(map[key := Some(value)])
  {
    var st := ParseState(map[], 0);
    ValueParsedAsKey(argList, 0, st, key);
    KeyEqualsNext(argList, 0, st, key);
    var asWritten := ParseState(st.args[key := Some(value)][value := None], 0);
    var intended := ParseState(st.args[key := Some(value)], 0);
    ParseArgsOf(argList, 2, false, asWritten);
    ParseArgsOf(argList, 2, true, intended);
    assert st.args[key := Some(value)] == map[key := Some(value)];
  }

  /** The arguments are the dictionary of the final loop state. */
  lemma ParseArgsOf(argList: seq<string>, n: nat, skipsValue: bool, st: ParseState)
    requires n == |argList| && ParseUpTo(argList, n, skipsValue) == Ok(st)
    ensures (if skipsValue then ParseArgs(argList) else ParseArgsAsWritten(argList)) == Ok(st.args)
  {
  }

  /**
   * So `known_hosts= update` turns on the update mode as written, and only
   * names the known-hosts file as intended. The two words themselves,
   * unquoted, are such tokens.
   */
  lemma KnownHostsSpaceUpdate(argList: seq<string>)
    requires |argList| == 2 && Strip(argList[0]) == KNOWN_HOSTS + "=" && Strip(argList[1]) == UPDATE
    ensures ParseArgsAsWritten(argList).Ok? && UPDATE in ParseArgsAsWritten(argList).value
    ensures ParseArgs(argList).Ok? && UPDATE !in ParseArgs(argList).value
    ensures Strip(KNOWN_HOSTS + "=") == KNOWN_HOSTS + "=" && Strip(UPDATE) == UPDATE
  {
    StripTrimmed(KNOWN_HOSTS + "=");
    StripTrimmed(UPDATE);
    assert '=' !in KNOWN_HOSTS && '=' !in UPDATE && KNOWN_HOSTS != UPDATE by {
      assert KNOWN_HOSTS[0] != UPDATE[0];
    }
    KeySpaceValueAlone(argList, KNOWN_HOSTS, UPDATE);
  }

  /** A trailing `key=` stores the empty string. */
  lemma TrailingKeyEquals(argList: seq<string>, st: ParseState, key: string, skipsValue: bool)
    requires argList != [] && ParseUpTo(argList, |argList| - 1, skipsValue) == Ok(st) && st.eatMe == 0
    requires Strip(argList[|argList| - 1]) == key + "=" && '=' !in key
    ensures (if skipsValue then ParseArgs(argList) else ParseArgsAsWritten(argList)) == Ok(st.args[key := Some("")])
  {
    var arg := key + "=";
    assert arg[|key|] == '=' && arg[..|key|] == key && arg[|key| + 1..] == [];
    assert FindEq(arg) == Some(|key|);
  }

  /** A bare key, last or followed by a token not starting with `=`, maps to `None`. */
  lemma BareKey(argList: seq<string>, loc: nat, st: ParseState, skipsValue: bool)
    requires loc < |argList| && ParseUpTo(argList, loc, skipsValue) == Ok(st) && st.eatMe == 0
    requires '=' !in Strip(argList[loc])
    requires loc + 1 < |argList| ==> Strip(argList[loc + 1]) != [] && Strip(argList[loc + 1])[0] != '='
    ensures ParseUpTo(argList, loc + 1, skipsValue) == Ok(ParseState(st.args[Strip(argList[loc]) := None], 0))
  {
  }

  /** `key =value`: the text after `=` is stored and the one following token is skipped. */
  lemma KeySpaceEqualsValue(argList: seq<string>, loc: nat, st: ParseState, value: string, skipsValue: bool)
    requires loc + 1 < |argList| && ParseUpTo(argList, loc, skipsValue) == Ok(st) && st.eatMe == 0
    requires '=' !in Strip(argList[loc])
    requires Strip(argList[loc + 1]) == "=" + value && value != ""
    ensures ParseUpTo(argList, loc + 2, skipsValue) == Ok(ParseState(st.args[Strip(argList[loc]) := Some(value)], 0))
  {
    var next := Strip(argList[loc + 1]);
    assert next[0] == '=' && next[1..] == value && |next| > 1;
    assert ParseUpTo(argList, loc + 1, skipsValue) == Ok(ParseState(st.args[Strip(argList[loc]) := Some(value)], 1));
  }

  /** `key = value`: the third token is the value, and both following tokens are skipped. */
  lemma KeySpacedEquals(argList: seq<string>, loc: nat, st: ParseState, skipsValue: bool)
    requires loc + 2 < |argList| && ParseUpTo(argList, loc, skipsValue) == Ok(st) && st.eatMe == 0
    requires '=' !in Strip(argList[loc]) && Strip(argList[loc + 1]) == "="
    ensures ParseUpTo(argList, loc + 3, skipsValue) == Ok(ParseState(st.args[Strip(argList[loc]) := Some(Strip(argList[loc + 2]))], 0))
  {
    var value := Strip(argList[loc + 2]);
    assert ("=" + value)[1..] == value;
    var after := ParseState(st.args[Strip(argList[loc]) := Some(value)], 2);
    assert ParseUpTo(argList, loc + 1, skipsValue) == Ok(after);
    assert ParseUpTo(argList, loc + 2, skipsValue) == Ok(after.(eatMe := 1));
  }

  /** A bare key followed by a token that strips to nothing raises IndexError. */
  lemma EmptyLookAheadFails(argList: seq<string>, loc: nat, st: ParseState, skipsValue: bool)
    requires loc + 1 < |argList| && ParseUpTo(argList, loc, skipsValue) == Ok(st) && st.eatMe == 0
    requires '=' !in Strip(argList[loc]) && Strip(argList[loc + 1]) == []
    ensures (if skipsValue then ParseArgs(argList) else ParseArgsAsWritten(argList)) == Err(EmptyLookAhead(loc + 1))
  {
    ParseUpToErr(argList, loc + 1, |argList|, skipsValue);
  }

  // ---------------------------------------------------------------------
  // `known_hosts`
  // ---------------------------------------------------------------------

  const UPDATE: string := "update"
  const SKIP: string := "skip-sums"
  const KNOWN_HOSTS: string := "known_hosts"
  const DEFAULT_KNOWN_HOSTS: string := "known_hosts.db"

  /** `os.path.abspath` of a plain file name, relative to the working directory `cwd`. */
  function AbsPath(cwd: string, name: string): (p: string)
    ensures |p| > |name| && p[|p| - |name|..] == name
  {
    if cwd != [] && cwd[|cwd| - 1] == '/' then cwd + name else cwd + "/" + name
  }

  /** `known_hosts`: the file given on the command line, else `known_hosts.db` in the working directory. */
  function KnownHosts(args: Args, cwd: string): (p: Option<string>)
    ensures KNOWN_HOSTS in args ==> p == args[KNOWN_HOSTS]
    ensures KNOWN_HOSTS !in args ==> p.Some? && |p.value| > |DEFAULT_KNOWN_HOSTS| && p.value[|p.value| - |DEFAULT_KNOWN_HOSTS|..] == DEFAULT_KNOWN_HOSTS
  {
    if KNOWN_HOSTS in args then args[KNOWN_HOSTS] else Some(AbsPath(cwd, DEFAULT_KNOWN_HOSTS))
  }

  // ---------------------------------------------------------------------
  // One host of `main`
  // ---------------------------------------------------------------------

  /** One section of the configuration file (the platform is always `Ubuntu_14_04`). */
  datatype HostConfig = HostConfig(host: string, username: string, keyFile: string, password: string)

  /** How the handling of one host ends. */
  datatype Outcome =
    | NotConnected              // `connect` raised
    | Crashed(error: Error)     // an exception escaped the tripwire code
    | Rewritten(written: Bytes) // update mode: the database was rewritten, `main` returns
    | Dirty(diff: seq<Entry>)   // the comparison found differences, `main` returns
    | Unlocked(entered: bool)   // `enter_password` ran; `entered` is its result

  /** The stored snapshot `TripwireDatabase` loads from the file content `disk`, if any. */
  function StoredSnapshot(disk: Option<Bytes>): Result<Option<Table>, Error> {
    if disk.None? then Ok(None)
    else
      match ParseLines(Lines(disk.value))
      case Err(e) => Err(e)
      case Ok(t) => Ok(Some(t))
  }

  lemma StoredAgree(disk: Option<Bytes>)
    requires StoredSnapshot(disk).Ok? && StoredSnapshot(disk).value.Some?
    ensures Agree(StoredSnapshot(disk).value.value.names, StoredSnapshot(disk).value.value.sums)
  {
    ParsedAgree(Lines(disk.value));
  }

  /** What `enter_password` returns on this host. */
  function Enters(remote: RemoteHost): bool {
    Platforms.IpAndDev(remote.respond(Platforms.CMD_IP_ADDR_LIST)).Some?
  }

  /**
   * The tripwire branch of `main` for one host: `None` when the check
   * passes and the loop goes on to the password, otherwise how `main`
   * ends (an exception, the update, or a dirty comparison).
   */
  function Verdict(args: Args, remote: RemoteHost, disk: Option<Bytes>): Option<Outcome> {
    match StoredSnapshot(disk)
    case Err(e) => Some(Crashed(e))
    case Ok(stored) =>
      match RemoteSnapshot(Platforms.SumsOutput(remote))
      case Err(e) => Some(Crashed(e))
      case Ok(snap) =>
        SnapshotShape(Platforms.SumsOutput(remote));
        if UPDATE in args then Some(Rewritten(Serialize(snap.names, snap.sums)))
        else if stored.None? then Some(Crashed(NoDatabase))
        else
          StoredAgree(disk);
          var diff := MergeDiff(snap.names, snap.sums, stored.value.names, stored.value.sums);
          if diff == [] then None else Some(Dirty(diff))
  }

  /**
   * The decision `main` takes for one host, given the command line, the
   * remote machine and the content of its database file.
   */
  function Decide(args: Args, remote: RemoteHost, disk: Option<Bytes>): Outcome {
    if !remote.connects then NotConnected else Examined(args, remote, disk)
  }

  /** The decision once connected: the tripwire verdict unless sums are skipped, else the password. */
  function Examined(args: Args, remote: RemoteHost, disk: Option<Bytes>): Outcome {
    if SKIP in args then Unlocked(Enters(remote))
    else
      match Verdict(args, remote, disk)
      case Some(o) => o
      case None => Unlocked(Enters(remote))
  }

  /** Two tables whose names are their map's keys are equal once the lists and the sums agree. */
  lemma TablesEqual(a: Table, b: Table)
    requires Agree(a.names, a.sums) && Agree(b.names, b.sums) && a.names == b.names
    requires forall i :: 0 <= i < |a.names| ==> a.sums[a.names[i]] == b.sums[a.names[i]]
    ensures a == b
  {
    forall n | n in a.sums
      ensures n in b.sums && a.sums[n] == b.sums[n]
    {
      var i :| 0 <= i < |a.names| && a.names[i] == n;
    }
    assert a.sums == b.sums;
  }

  /**
   * Fail closed: in compare mode the passphrase is released iff a stored
   * database exists, parses, and the fetched remote snapshot is exactly
   * that table (same names in the same order, same sums).
   */
  lemma UnlockIffUnchanged(args: Args, remote: RemoteHost, disk: Option<Bytes>)
    requires remote.connects && SKIP !in args && UPDATE !in args
    ensures Decide(args, remote, disk).Unlocked? <==>
              && disk.Some? && ParseLines(Lines(disk.value)).Ok?
              && RemoteSnapshot(Platforms.SumsOutput(remote)) == Ok(ParseLines(Lines(disk.value)).value)
  {
    var listing := Platforms.SumsOutput(remote);
    if disk.Some? && ParseLines(Lines(disk.value)).Ok? && RemoteSnapshot(listing).Ok? {
      var stored := ParseLines(Lines(disk.value)).value;
      var snap := RemoteSnapshot(listing).value;
      SnapshotShape(listing);
      StoredAgree(disk);
      MergeDiffNone(snap.names, snap.sums, stored.names, stored.sums);
      if MergeDiff(snap.names, snap.sums, stored.names, stored.sums) == [] {
        TablesEqual(snap, stored);
      }
    }
  }

  /** With update mode the file written is the fetched snapshot; checking it again right away unlocks. */
  lemma UpdateThenUnlock(args: Args, remote: RemoteHost, disk: Option<Bytes>)
    requires Decide(args, remote, disk).Rewritten?
    ensures remote.connects && SKIP !in args
    ensures var written := Decide(args, remote, disk).written;
            && ParseLines(Lines(written)) == RemoteSnapshot(Platforms.SumsOutput(remote))
            && Decide(args - {UPDATE}, remote, Some(written)) == Unlocked(Enters(remote))
  {
    var listing := Platforms.SumsOutput(remote);
    RewrittenWrites(args, remote, disk);
    SnapshotRereads(listing);
    RecheckUnlocks(args - {UPDATE}, remote);
  }

  /** A rewrite happens only in update mode, and writes the fetched snapshot. */
  lemma RewrittenWrites(args: Args, remote: RemoteHost, disk: Option<Bytes>)
    requires Decide(args, remote, disk).Rewritten?
    ensures remote.connects && SKIP !in args && UPDATE in args
    ensures RemoteSnapshot(Platforms.SumsOutput(remote)).Ok?
    ensures var snap := RemoteSnapshot(Platforms.SumsOutput(remote)).value;
            && Agree(snap.names, snap.sums)
            && Decide(args, remote, disk).written == Serialize(snap.names, snap.sums)
  {
    SnapshotShape(Platforms.SumsOutput(remote));
  }

  /** Checking the written snapshot against the same remote finds no difference. */
  lemma RecheckUnlocks(args: Args, remote: RemoteHost)
    requires remote.connects && SKIP !in args && UPDATE !in args
    requires RemoteSnapshot(Platforms.SumsOutput(remote)).Ok?
    ensures var snap := RemoteSnapshot(Platforms.SumsOutput(remote)).value;
            && Agree(snap.names, snap.sums)
            && Decide(args, remote, Some(Serialize(snap.names, snap.sums))) == Unlocked(Enters(remote))
  {
    var listing := Platforms.SumsOutput(remote);
    SnapshotShape(listing);
    SnapshotRereads(listing);
    var snap := RemoteSnapshot(listing).value;
    MergeDiffSame(snap.names, snap.sums);
  }

  /** A remote call that uploads a file object: only the password script is ever sent that way. */
  predicate Uploads(calls: seq<Call>) {
    exists i :: 0 <= i < |calls| && calls[i].SendFileObj?
  }

  /** Neither an upload of a file object nor a close. */
  predicate Quiet(calls: seq<Call>) {
    forall i :: 0 <= i < |calls| ==> !calls[i].SendFileObj? && !calls[i].Close?
  }

  /** No file has been uploaded with `send_file`: the sum program never went to the host. */
  predicate NoSumUpload(calls: seq<Call>) {
    forall i :: 0 <= i < |calls| ==> !calls[i].SendFile?
  }

  lemma QuietAppend(a: seq<Call>, b: seq<Call>)
    requires Quiet(a) && Quiet(b)
    ensures Quiet(a + b)
  {
    forall i | 0 <= i < |a + b|
      ensures !(a + b)[i].SendFileObj? && !(a + b)[i].Close?
    {
      if i >= |a| {
        assert (a + b)[i] == b[i - |a|];
      }
    }
  }

  lemma PrefixAppend(a: seq<Call>, b: seq<Call>)
    ensures a <= a + b
  {
    assert (a + b)[..|a|] == a;
  }

  lemma PrefixTrans(a: seq<Call>, b: seq<Call>, c: seq<Call>)
    requires a <= b && b <= c
    ensures a <= c
  {
    assert c[..|a|] == b[..|a|];
  }

  /** The calls made before the tripwire check: host keys, policy, connect, and saving the keys on success. */
  function Handshake(hostsFile: string, hostsFileExists: bool, config: HostConfig, connected: bool): (h: seq<Call>)
    ensures Quiet(h) && NoSumUpload(h)
  {
    var h := (if hostsFileExists then [Call.LoadHostKeys(hostsFile)] else [])
             + [Call.SetAutoAddPolicy, Call.Connect(config.host, config.username, config.keyFile)]
             + (if connected then [Call.SaveHostKeys(hostsFile)] else []);
    assert forall i :: 0 <= i < |h| ==> h[i] in h;
    h
  }

  lemma SumCallsQuiet()
    ensures Quiet(SumCalls())
  {
  }

  /** The calls `enter_password` and `close` make. */
  function UnlockTail(entered: bool, script: string): seq<Call> {
    [Call.Exec(Platforms.CMD_IP_ADDR_LIST)]
    + (if entered then [Call.SendFileObj(script, Platforms.PASSWORD_SCRIPT_REMOTE),
                        Call.Exec(Platforms.SCRIPT_EXEC_COMMAND)] else [])
    + [Call.Close]
  }

  /** After a quiet prefix, the password is uploaded iff it was entered, and the connection is closed. */
  lemma UnlockCalls(before: seq<Call>, entered: bool, script: string)
    requires Quiet(before)
    ensures var after := before + UnlockTail(entered, script);
            && Uploads(after) == entered && Call.Close in after && before <= after
            && (NoSumUpload(before) ==> NoSumUpload(after))
  {
    var tail := UnlockTail(entered, script);
    var after := before + tail;
    assert forall i :: |before| <= i < |after| ==> after[i] == tail[i - |before|];
    assert after[|after| - 1] == Call.Close;
    if entered {
      assert after[|before| + 1] == tail[1];
    }
    PrefixAppend(before, tail);
  }

  /** Regrouping of a call trace; keeps the solver from searching for it. */
  lemma CallsAssoc(a: seq<Call>, b: seq<Call>, c: seq<Call>, d: seq<Call>)
    ensures a + b + c + d == a + (b + c + d)
  {
  }

  lemma QuietStops(calls: seq<Call>)
    requires Quiet(calls)
    ensures !Uploads(calls) && Call.Close !in calls
  {
  }

  /** The connection steps of the host loop: load the known hosts if the file exists, connect, save them. */
  method ConnectHost(client: Client, hostsFile: string, hostsFileExists: bool, config: HostConfig)
    returns (connected: bool)
    modifies client
    ensures connected == client.remote.connects
    ensures client.calls == old(client.calls) + Handshake(hostsFile, hostsFileExists, config, connected)
  {
    if hostsFileExists {
      client.LoadHostKeys(hostsFile);
    }
    client.SetAutoAddPolicy();
    connected := client.Connect(config.host, config.username, config.keyFile);
    if connected {
      client.SaveHostKeys(hostsFile);
    }
  }

  /** The tripwire branch of the host loop: load the database, fetch the sums, then update or compare. */
  method CheckSums(args: Args, client: Client, host: string, disk: Option<Bytes>) returns (stop: Option<Outcome>)
    modifies client
    ensures stop == Verdict(args, client.remote, disk)
    ensures client.calls == old(client.calls) + (if StoredSnapshot(disk).Ok? then SumCalls() else [])
  {
    var db, err := TripwireDatabase.Open(client, host, disk);
    if err.Some? {
      return Some(Crashed(err.value));
    }
    err := db.GetRemoteSums();
    if err.Some? {
      return Some(Crashed(err.value));
    }
    if UPDATE in args {
      err := db.UpdateDatabase();
      return Some(Rewritten(db.dbFile.value));
    }
    var diff := db.CompareDatabases();
    if diff.Err? {
      return Some(Crashed(diff.error));
    }
    if |diff.value| != 0 {
      return Some(Dirty(diff.value));
    }
    stop := None;
  }

  /** The end of the host loop: `enter_password`, then `close`. */
  method Unlock(client: Client, password: string) returns (entered: bool)
    requires Quiet(client.calls)
    modifies client
    ensures entered == Enters(client.remote)
    ensures old(client.calls) <= client.calls
    ensures Uploads(client.calls) == entered && Call.Close in client.calls
    ensures NoSumUpload(old(client.calls)) ==> NoSumUpload(client.calls)
  {
    ghost var before := client.calls;
    entered := Platforms.EnterPassword(client, password);
    client.Close();
    ghost var a := Platforms.IpAndDev(client.remote.respond(Platforms.CMD_IP_ADDR_LIST));
    ghost var script := if entered then Platforms.PasswordScript(a.value.0, a.value.1, password) else "";
    CallsAssoc(before, [Call.Exec(Platforms.CMD_IP_ADDR_LIST)],
               if entered then [Call.SendFileObj(script, Platforms.PASSWORD_SCRIPT_REMOTE),
                                Call.Exec(Platforms.SCRIPT_EXEC_COMMAND)] else [],
               [Call.Close]);
    UnlockCalls(before, entered, script);
  }

  /** The host loop after a successful connect: the tripwire check unless skipped, then the password and the close. */
  method Examine(args: Args, client: Client, config: HostConfig, disk: Option<Bytes>) returns (outcome: Outcome)
    requires Quiet(client.calls)
    modifies client
    ensures outcome == Examined(args, client.remote, disk)
    ensures old(client.calls) <= client.calls
    ensures Uploads(client.calls) <==> outcome == Unlocked(true)
    ensures Call.Close in client.calls <==> outcome.Unlocked?
    ensures SKIP in args && NoSumUpload(old(client.calls)) ==> NoSumUpload(client.calls)
  {
    ghost var before := client.calls;
    var stop: Option<Outcome> := None;
    if SKIP !in args {
      stop := CheckSums(args, client, config.host, disk);
      SumCallsQuiet();
      QuietAppend(before, SumCalls());
      PrefixAppend(before, if StoredSnapshot(disk).Ok? then SumCalls() else []);
    }
    ghost var checked := client.calls;
    if stop.Some? {
      outcome := stop.value;
      QuietStops(client.calls);
    } else {
      var entered := Unlock(client, config.password);
      PrefixTrans(before, checked, client.calls);
      outcome := Unlocked(entered);
    }
  }

  /**
   * The body of the host loop of `main`: a fresh client, the handshake,
   * then (unless sums are skipped) the tripwire check, and finally the
   * password and the close.
   */
  method ProcessHost(args: Args, hostsFile: string, hostsFileExists: bool, config: HostConfig,
                     remote: RemoteHost, disk: Option<Bytes>) returns (outcome: Outcome, client: Client)
    ensures outcome == Decide(args, remote, disk)
    ensures fresh(client) && client.remote == remote
    ensures Handshake(hostsFile, hostsFileExists, config, remote.connects) <= client.calls
    ensures Uploads(client.calls) <==> outcome == Unlocked(true)
    ensures Call.Close in client.calls <==> outcome.Unlocked?
    ensures SKIP in args ==> NoSumUpload(client.calls)
  {
    client := new Client(remote);
    var connected := ConnectHost(client, hostsFile, hostsFileExists, config);
    ghost var handshake := client.calls;
    assert handshake == [] + Handshake(hostsFile, hostsFileExists, config, connected);
    if !connected {
      outcome := NotConnected;
      QuietStops(client.calls);
    } else {
      outcome := Examine(args, client, config, disk);
    }
  }

  // ---------------------------------------------------------------------
  // The host loop of `main`
  // ---------------------------------------------------------------------

  /** The content of a host's database file, if the file exists. */
  function DiskOf(files: map<string, Bytes>, host: string): Option<Bytes> {
    var f := DbFileName(host);
    if f in files then Some(files[f]) else None
  }

  /** How `main` decides each host, given the remote machines and the database files on disk. */
  function HostDecision(args: Args, network: string -> RemoteHost, files: map<string, Bytes>): HostConfig -> Outcome {
    (config: HostConfig) => Decide(args, network(config.host), DiskOf(files, config.host))
  }

  /** One pass of the host loop, on the machine and the database file of the configured host. */
  method HandleHost(args: Args, hostsFile: string, hostsFileExists: bool, config: HostConfig,
                    network: string -> RemoteHost, files: map<string, Bytes>) returns (outcome: Outcome)
    ensures outcome == HostDecision(args, network, files)(config)
  {
    var client;
    outcome, client := ProcessHost(args, hostsFile, hostsFileExists, config, network(config.host), DiskOf(files, config.host));
  }

  /** The outcomes of `main` host by host: it goes on to the next host only after an unlock. */
  function RunOutcomes(hosts: seq<HostConfig>, decide: HostConfig -> Outcome): seq<Outcome> {
    if hosts == [] then []
    else
      var o := decide(hosts[0]);
      if o.Unlocked? then [o] + RunOutcomes(hosts[1..], decide) else [o]
  }

  /**
   * Hosts are handled in configuration order; every handled host but the
   * last was unlocked, and when hosts are left over the last outcome is not
   * an unlock: nothing is released after a failed or dirty host.
   */
  lemma {:induction false} RunStopsAtFirstFailure(hosts: seq<HostConfig>, decide: HostConfig -> Outcome)
    ensures var r := RunOutcomes(hosts, decide);
            && |r| <= |hosts|
            && (hosts != [] ==> r != [])
            && (forall i :: 0 <= i < |r| ==> r[i] == decide(hosts[i]))
            && (forall i :: 0 <= i < |r| - 1 ==> r[i].Unlocked?)
            && (|r| < |hosts| ==> !r[|r| - 1].Unlocked?)
  {
    if hosts != [] {
      RunStopsAtFirstFailure(hosts[1..], decide);
      var r := RunOutcomes(hosts, decide);
      var o := decide(hosts[0]);
      if o.Unlocked? {
        var rest := RunOutcomes(hosts[1..], decide);
        assert r == [o] + rest;
        assert forall i :: 1 <= i < |r| ==> r[i] == rest[i - 1] && hosts[i] == hosts[1..][i - 1];
      }
    }
  }

  /**
   * The host loop of `main` once the arguments are parsed: the known-hosts
   * file exists for every host after the first that connected, because
   * each handshake saves it.
   */
  method Run(args: Args, hostsFile: string, hostsFileExists: bool, hosts: seq<HostConfig>,
             network: string -> RemoteHost, files: map<string, Bytes>) returns (outcomes: seq<Outcome>)
    ensures outcomes == RunOutcomes(hosts, HostDecision(args, network, files))
  {
    ghost var decide := HostDecision(args, network, files);
    outcomes := [];
    var known := hostsFileExists;
    var k := 0;
    while k < |hosts|
      invariant 0 <= k <= |hosts|
      invariant outcomes + RunOutcomes(hosts[k..], decide) == RunOutcomes(hosts, decide)
    {
      var config := hosts[k];
      var outcome := HandleHost(args, hostsFile, known, config, network, files);
      assert hosts[k..][1..] == hosts[k + 1..];
      if !outcome.Unlocked? {
        return outcomes + [outcome];
      }
      outcomes := outcomes + [outcome];
      known := true;
      k := k + 1;
    }
    assert hosts[k..] == [];
    assert outcomes + [] == outcomes;
  }
}

# safestart, modelled in Dafny

`safestart` unlocks machines whose encrypted disk is waiting at the
early-boot passphrase prompt. For each host in its configuration it
connects over SSH and uploads `sha256sum`. It runs that program over every
regular file and compares the resulting listing (sorted, minus excluded
names) with a stored per-host "tripwire" database. Only when nothing was
added, deleted or updated does it upload a small shell script that takes
the network down and writes the passphrase into the cryptsetup FIFO.
`update` rewrites the database from the fresh listing instead of
comparing. `skip-sums` skips the check. `known_hosts=<file>` chooses the
SSH host-key file.

The model has eight modules:

- `Bytes` (bytes.dfy): byte strings, whitespace splitting (`bytes.split()`),
  line splitting (iteration over a binary file), and the byte-wise order
  with an insertion sort (`list.sort()`).
- `SshClient` (client.dfy): the SSH client seen as an oracle for one remote
  machine (does connecting succeed, and what does each command answer),
  plus a trace of every call made on it.
- `Platforms` (platforms.dfy): the `Ubuntu_14_04` platform. It covers the
  sum command with its exit-code gate and cleanup, the exclusion globs,
  the `ip address list` scan, and filling in the password script.
- `TripwireFormat` (tripwire_format.dfy): the database file name, the
  parser `_parse_database` and the writer `_write_database`.
- `TripwireDiff` (tripwire_diff.dfy): the diff `compare_databases`
  computes, as a recursive function with its properties.
- `Tripwire` (tripwire.dfy): sorting and exclusion in `get_remote_sums`,
  the merge loop, and the `TripwireDatabase` class. Its fields are the
  remote and stored snapshots and the database file contents.
- `SafeStart` (safestart.dfy): `parse_arguments` (a loop proved against a
  step function), `known_hosts`, and the flow of `main`. Each host's
  handling is a method over a `Client` and is also a pure decision
  `Decide`. The host loop is `Run`.

The central guarantees:

- The passphrase script is uploaded on a host exactly when that host is
  unlocked and its IP address was found (`SafeStart.ProcessHost`).
- Outside `skip-sums` and `update`, a host is unlocked exactly when its
  fresh snapshot equals the stored database (`SafeStart.UnlockIffUnchanged`).
- After an update, the written file reads back as the snapshot, and the
  next check against it unlocks (`SafeStart.UpdateThenUnlock`).
- No host is handled after one that was not unlocked
  (`SafeStart.RunStopsAtFirstFailure`).

Two details of the code the model keeps:

- The database file of a host is `<host>.tripwire.db` (tripwire.py:18).
- The parser does not reject a database that lists a name twice. Every
  line is kept in the name list, and the map keeps the last sum
  (`TripwireFormat.ParseLinesLastWins`).

## Model

| member | source | states |
|---|---|---|
| TripwireFormat.DbFileName | tripwire.py:18 | the file name starts with the host and adds exactly the 12 characters of `.tripwire.db` |
| TripwireFormat.DbFileNameInjective | tripwire.py:18 | different hosts never share a database file |
| TripwireFormat.ParseLines | tripwire.py:21-36 | `_parse_database`: each line split on whitespace into sum and name, the name appended to the list and the sum stored under it, or the ValueError of the first line without exactly two fields |
| TripwireFormat.ParseLinesOk | tripwire.py:31-32 | parsing succeeds iff every line splits on whitespace into exactly two fields |
| TripwireFormat.ParseLinesFirstError | tripwire.py:31-32 | a malformed line after well-formed ones raises the error for that line |
| TripwireFormat.ParseLinesErrPrefix | tripwire.py:31-32 | once a prefix fails, the later lines make no difference |
| TripwireFormat.ParseLinesNames | tripwire.py:29-36 | the name list holds the second field of each line in order, and the map's keys are exactly the listed names |
| TripwireFormat.ParseLinesLastWins | tripwire.py:33 | a name's sum is the one on the last line naming it |
| TripwireFormat.ParseDatabase | tripwire.py:21-36 | the loop that builds the list and the dict returns the parse of all lines, or the error of the first malformed line |
| TripwireFormat.Records | tripwire.py:72-73 | one `sum TAB name LF` record per listed name, in list order |
| TripwireFormat.Record | tripwire.py:73 | one written record: sum, TAB, name, LF |
| TripwireFormat.Serialize | tripwire.py:71-73 | `_write_database`: the records of the listed names, in list order, one after the other |
| TripwireFormat.SerializeAppend | tripwire.py:72-73 | writing one more name appends exactly its record |
| TripwireFormat.RecordIsLine | tripwire.py:73 | a record of whitespace-free tokens is one line ending in LF |
| TripwireFormat.ParseRecords | tripwire.py:21-36 | parsing the records gives back the names and the map restricted to them |
| TripwireFormat.WriteThenParse | tripwire.py:57-74 | a written database reads back as the same list and map when the map's keys are the listed names |
| Bytes.Fields | tripwire.py:32 | `split()` yields only non-empty, whitespace-free fields |
| Bytes.FieldsOfRecord | tripwire.py:32 | a written record splits into exactly its sum and its name |
| Bytes.Lines | tripwire.py:31 | iterating a file yields non-empty lines that concatenate back to the content |
| Bytes.LinesOfConcat | tripwire.py:31 | a concatenation of LF-terminated lines iterates as those lines |
| Bytes.LinesInnerLF | tripwire.py:31 | every line of a stream holds LF only as its last byte |
| Bytes.BelowTotal | tripwire.py:92 | the byte-string order compares any two names |
| Bytes.BelowAntisymmetric | tripwire.py:92 | names ordered both ways are equal |
| Bytes.BelowTransitive | tripwire.py:92 | the order is transitive |
| Bytes.Trichotomy | tripwire.py:126 | exactly one of `<`, `==`, `>` holds between two names |
| Bytes.InsertSorted | tripwire.py:92 | inserting into a sorted list keeps it sorted |
| Bytes.Sort | tripwire.py:92 | `names.sort()` yields a sorted permutation |
| Platforms.TranslateAll | platforms.py:27-28 | one compiled pattern per exclusion glob, in order |
| Platforms.GlobMatch | platforms.py:27 | `fnmatch.translate` then `re.match` on a glob of literal bytes and `*`: `*` matches any run of bytes and the match must reach the end |
| Platforms.IsExcluded | tripwire.py:97-101 | a name is excluded iff one of the two exclusion patterns matches it |
| Platforms.GlobLiteral | platforms.py:27-28 | a glob without `*` matches only the name itself |
| Platforms.GlobSuffix | platforms.py:27-28 | a glob `*w` matches exactly the names ending in `w` |
| Platforms.ExcludedIff | platforms.py:23-28 | a name is excluded iff it ends in `.pid` or is the uploaded sum program |
| Platforms.SumsOutput | platforms.py:64-78 | the listing is handed on only when the sum command exits with 0 |
| Platforms.GetRemoteSums | platforms.py:55-78 | uploads the sum program, makes it executable, runs it and removes it whatever the exit code; returns the output iff the exit code is 0 |
| Platforms.SkipSpace | platforms.py:51 | `\s*` takes the longest run of leading whitespace |
| Platforms.LeadingWord | platforms.py:51 | `[^\s]*` takes the longest whitespace-free prefix |
| Platforms.TrimEnd | platforms.py:52 | backtracking from the end leaves the longest run of trailing whitespace |
| Platforms.TrailingWord | platforms.py:52 | `[^\s]+` at the end takes the longest whitespace-free suffix |
| Platforms.InetMatch | platforms.py:51-52 | `INET_MATCH` with its groups: after `\s*inet\s`, ip is the maximal non-whitespace run and dev the last word after a later whitespace; no match without one |
| Platforms.InetMatchSound | platforms.py:51-52 | every match has the shape `\s*inet\s<ip>.*\s+<dev>\s*` with ip and dev free of whitespace (the pattern's shape on lines whose only LF is the last character) |
| Platforms.InetMatchComplete | platforms.py:51-52 | every line of that shape matches with those groups |
| Platforms.InetMatchIff | platforms.py:51-52 | the matcher returns (ip, dev) iff the line has that shape |
| Platforms.Inet6NeverMatches | platforms.py:51 | an `inet6` line never matches |
| Platforms.ScannedLinesInnerLF | platforms.py:96-98 | the decoded lines the scan hands to the matcher hold a newline at most as their last character |
| Platforms.FindWith | platforms.py:97-106 | the loop's result on the first line satisfying the test, or nothing when it runs off the end |
| Platforms.FindWithFirst | platforms.py:97-106 | that result is the one of the least line satisfying the test |
| Platforms.FindAddress | platforms.py:97-108 | the groups of the first line that matches with a device other than `lo`, or nothing |
| Platforms.FirstWhereLeast | platforms.py:97-103 | the scan stops at the least index of a matching line |
| Platforms.FirstExternalLeast | platforms.py:97-103 | the selected line is the first external (non-`lo`) inet line |
| Platforms.FindAddressFirst | platforms.py:97-108 | the address found is the groups of the first external inet line, or none |
| Platforms.FindAddressSome | platforms.py:97-106 | an address is found iff some line is an external inet line |
| Platforms.SelectAddress | platforms.py:97-108 | the for/else loop returns the first external inet line's groups, or none when it runs off the end |
| Platforms.GetIpAndDev | platforms.py:81-108 | runs `ip address list` once; a positive exit code gives none, otherwise the scan's result |
| Platforms.IpAndDev | platforms.py:89-108 | nothing on a positive exit code, otherwise the address of the decoded output lines |
| Platforms.FormatDefined | platforms.py:120-123 | filling in the template succeeds iff every placeholder has a value |
| Platforms.FormatAppend | platforms.py:120-123 | filling in a template is filling in its parts and concatenating |
| Platforms.Format | platforms.py:120-123 | `str.format` with named fields: literal text kept, each field replaced by its value, and a KeyError for a field without one |
| Platforms.PasswordScript | platforms.py:120-123 | the template filled with ip, dev, the passphrase and `PIPE_NAME` |
| Platforms.FormatBeforeSecret | platforms.py:34-46 | the part of the script before the passphrase (wait for the FIFO, drop the address, take the device down) fills in without depending on the passphrase |
| Platforms.FormatSecretLine | platforms.py:46-47 | the rest of the script is the passphrase, the redirection into the FIFO and `exit` |
| Platforms.SecretWrittenLast | platforms.py:34-48 | the filled-in script is that passphrase-free preamble followed by the passphrase written into the FIFO |
| Platforms.EnterPassword | platforms.py:111-136 | returns true iff an address was found; only then uploads the filled-in script and runs it |
| Tripwire.Kept | tripwire.py:95-104 | the clean names are exactly the listed names that are not excluded |
| Tripwire.KeptSorted | tripwire.py:92-104 | removing excluded names from a sorted list keeps it sorted |
| Tripwire.KeptDistinct | tripwire.py:95-104 | removing names keeps the list free of repeats |
| Tripwire.Exclude | tripwire.py:95-107 | the exclusion loop: an excluded name is deleted from the map, any other appended to the clean list, and a second `del` of a name raises KeyError |
| Tripwire.ExcludeKeeps | tripwire.py:95-106 | the exclusion loop's clean list is the non-excluded names in order |
| Tripwire.ExcludeDeletes | tripwire.py:96-107 | the loop's map is the input map minus the excluded names |
| Tripwire.ExcludeFails | tripwire.py:102 | the loop raises KeyError iff an excluded name is listed twice |
| Tripwire.ExcludeErrPrefix | tripwire.py:102 | once the loop raised, later names make no difference |
| Tripwire.ExcludeNames | tripwire.py:95-107 | the loop with `del` and `append` computes the exclusion of the sorted names |
| Tripwire.Cleaned | tripwire.py:91-107 | sort the parsed names, then exclude |
| Tripwire.RemoteSnapshot | tripwire.py:84-107 | the remote snapshot: nothing when the sum command failed, the parse error of a malformed listing, else the cleaned parse |
| Tripwire.CleanedShape | tripwire.py:91-107 | the cleaned snapshot is sorted, holds no excluded name, and lists exactly its map's keys |
| Tripwire.SnapshotShape | tripwire.py:84-107 | the same for the whole remote snapshot |
| Tripwire.DistinctMultiset | tripwire.py:92 | a list is free of repeats iff each name occurs at most once in its multiset |
| Tripwire.SortDistinct | tripwire.py:92 | sorting keeps a list free of repeats |
| Tripwire.CleanedStrict | tripwire.py:91-107 | a listing without repeated names cleans without error into a strictly ascending list |
| Tripwire.SnapshotStrict | tripwire.py:84-107 | a listing without repeated names gives a strictly ascending snapshot |
| Tripwire.SnapshotRereads | tripwire.py:57-107 | a fetched snapshot, once written, reads back as the same snapshot |
| Tripwire.Merge | tripwire.py:109-141 | the two-pointer loop and its tail loops compute the diff function |
| Tripwire.AppendTagged | tripwire.py:132-139 | a tail loop appends every remaining name with its tag |
| Tripwire.TripwireDatabase.constructor | tripwire.py:44-51 | the database file name comes from the host, and the file counts as existing iff it is present (an empty file exists) |
| Tripwire.TripwireDatabase.Open | tripwire.py:44-55 | an existing file is loaded; a malformed one raises its parse error |
| Tripwire.TripwireDatabase.LoadDatabase | tripwire.py:76-82 | nothing happens without a file; otherwise the stored list and map are the file's parse, or the parse error is raised |
| Tripwire.TripwireDatabase.GetRemoteSums | tripwire.py:84-107 | makes the platform's four sum calls; on success the remote list and map are the sorted, cleaned listing, otherwise the error and nothing stored |
| Tripwire.TripwireDatabase.CompareDatabases | tripwire.py:109-141 | the diff of the remote and stored snapshots, or the TypeError when either is missing |
| Tripwire.TripwireDatabase.WriteDatabase | tripwire.py:57-74 | the file holds one record per stored name; without a stored snapshot the truncated file and the TypeError |
| Tripwire.TripwireDatabase.UpdateDatabase | tripwire.py:143-147 | the stored snapshot becomes the remote one and the file is its serialization |
| TripwireDiff.Tagged | tripwire.py:132-139 | every tail name gets the same tag, in order |
| TripwireDiff.MergeDiff | tripwire.py:109-141 | `compare_databases`: equal heads give `U` when their sums differ, otherwise the smaller head gives `A` (remote) or `D` (stored), and the leftover tails are all `A` then all `D` |
| TripwireDiff.MergeDiffAt | tripwire.py:119-131 | one step of the merge: equal heads compare sums, otherwise the smaller head is reported as added or deleted |
| TripwireDiff.MergeDiffRest | tripwire.py:132-139 | once one list is exhausted, the rest of the other is reported whole |
| TripwireDiff.MergeDiffSame | tripwire.py:109-141 | a snapshot compared with itself gives no differences |
| TripwireDiff.MergeDiffNames | tripwire.py:109-141 | every reported name is on one side or the other |
| TripwireDiff.MergeDiffNone | tripwire.py:109-141 | the diff is empty iff the two lists are equal and every name has the same sum on both sides |
| TripwireDiff.MergeDiffClassifies | tripwire.py:109-141 | on sorted lists a name is reported added iff only remote, deleted iff only stored, updated iff on both sides with different sums |
| TripwireDiff.MergeDiffAscending | tripwire.py:117-141 | on strictly sorted lists the reported names ascend strictly |
| TripwireDiff.MergeDiffEmpty | tripwire.py:109-141 | on sorted lists the diff is empty iff the name sets and their sums agree |
| TripwireDiff.MergeDiffSymmetric | tripwire.py:109-141 | swapping the sides swaps added and deleted and keeps everything else |
| SafeStart.SkipLeft | safestart.py:34 | the longest prefix of stripped characters |
| SafeStart.SkipRight | safestart.py:34 | the longest suffix of stripped characters |
| SafeStart.Strip | safestart.py:34 | the stripped token neither starts nor ends with a stripped character |
| SafeStart.StripExact | safestart.py:34 | stripping removes exactly the surrounding quote and space characters |
| SafeStart.StripIdempotent | safestart.py:34 | stripping twice is stripping once |
| SafeStart.FindEq | safestart.py:35 | `split('=', 1)` splits at the first `=` |
| SafeStart.Step | safestart.py:29-67 | a skipped token only decrements `eat_me`; a parsed one never skips past the end of the list |
| SafeStart.ParseUpTo | safestart.py:28-67 | the dictionary and `eat_me` after the first k tokens, or the IndexError raised among them |
| SafeStart.ParseArgs | safestart.py:21-71 | the corrected `parse_arguments`, where `key= value` consumes its value |
| SafeStart.ParseArgsAsWritten | safestart.py:21-71 | `parse_arguments` as written, where `key= value` leaves its value to be parsed again |
| SafeStart.ParseUpToErr | safestart.py:44 | once a look-ahead raised IndexError, the call raises it |
| SafeStart.EatMeBound | safestart.py:43-51 | `eat_me` never exceeds the tokens left |
| SafeStart.EatMeDrained | safestart.py:69 | the final assertion `eat_me == 0` always holds |
| SafeStart.ParseArguments | safestart.py:21-71 | with `skipsValue` false the loop as written returns `ParseArgsAsWritten` (the dictionary, or the IndexError of an empty look-ahead); with it true, `key= value` also consumes its value and the loop returns `ParseArgs` |
| SafeStart.KeyEqualsValue | safestart.py:60-61 | `key=value` binds the stripped value, in the loop as written and in the corrected one |
| SafeStart.KeyEqualsNext | safestart.py:62-65 | in the corrected loop, `key= value` binds the next token and skips it |
| SafeStart.TrailingKeyEquals | safestart.py:66-67 | a last token `key=` binds the empty string, in the loop as written and in the corrected one |
| SafeStart.BareKey | safestart.py:54-55 | a key followed by nothing or by a token not starting with `=` maps to None, in the loop as written and in the corrected one |
| SafeStart.KeySpaceEqualsValue | safestart.py:43-53 | `key =value` binds the value and skips one token, in the loop as written and in the corrected one |
| SafeStart.KeySpacedEquals | safestart.py:48-53 | `key = value` binds the value and skips two tokens, in the loop as written and in the corrected one |
| SafeStart.EmptyLookAheadFails | safestart.py:44 | a look-ahead token that strips to nothing raises IndexError, in the loop as written and in the corrected one |
| SafeStart.ValueParsedAsKey | safestart.py:62-65 | as written, `key= value` also enters the value as a key of its own |
| SafeStart.KeySpaceValueAlone | safestart.py:62-65 | on `key= value` alone, as written gives both keys and the intended loop gives one |
| SafeStart.KnownHostsSpaceUpdate | safestart.py:62-65 | as written, `known_hosts= update` turns on update mode; the intended loop does not |
| SafeStart.AbsPath | safestart.py:121 | the absolute path ends with the file name |
| SafeStart.KnownHosts | safestart.py:116-121 | the file given on the command line, else a path ending in `known_hosts.db` |
| SafeStart.StoredSnapshot | tripwire.py:44-55 | the stored snapshot: none without a file, the parse error of a malformed file, else its parse |
| SafeStart.Enters | platforms.py:111-116 | `enter_password` returns true iff an address was found |
| SafeStart.Verdict | safestart.py:144-160 | the tripwire branch: an escaping error, the rewrite in update mode, the TypeError without a stored database, the differences, or nothing when the comparison is clean |
| SafeStart.Examined | safestart.py:141-163 | once connected: the password in skip mode or after a clean check, otherwise the verdict |
| SafeStart.Decide | safestart.py:131-163 | one host: not connected, or the decision once connected |
| SafeStart.UnlockIffUnchanged | safestart.py:141-163 | outside skip and update mode, a connected host is unlocked iff its database parses and equals the fresh snapshot |
| SafeStart.UpdateThenUnlock | safestart.py:146-150 | after an update the written file parses as the fresh snapshot, and a plain run against it unlocks |
| SafeStart.RewrittenWrites | safestart.py:146-150 | update mode writes exactly the serialized fresh snapshot |
| SafeStart.RecheckUnlocks | safestart.py:144-163 | a host checked against its own freshly written snapshot is unlocked |
| SafeStart.Handshake | safestart.py:133-139 | the connection steps neither upload nor close |
| SafeStart.UnlockCalls | safestart.py:162-163 | after the check, the script is uploaded iff the password was entered, and the client is closed |
| SafeStart.ConnectHost | safestart.py:132-139 | host keys are loaded only if the file exists, and saved only after a successful connect |
| SafeStart.CheckSums | safestart.py:141-160 | the tripwire branch ends as the verdict says, after the platform's sum calls |
| SafeStart.Unlock | safestart.py:162-163 | enters the password as the platform decides and closes; the upload happens iff it entered |
| SafeStart.Examine | safestart.py:141-163 | the outcome after connecting; the script is uploaded iff unlocked with an address, closed iff unlocked; skip mode uploads no sum program |
| SafeStart.ProcessHost | safestart.py:131-163 | one host's handling follows `Decide`; the passphrase leaves only on an unlock that found an address |
| SafeStart.HandleHost | safestart.py:131-163 | one pass of the host loop decides as `Decide` does on the host's machine and database file |
| SafeStart.RunOutcomes | safestart.py:131-163 | the outcomes host by host, going on to the next host only after an unlock |
| SafeStart.RunStopsAtFirstFailure | safestart.py:131-163 | hosts are handled in order, all but the last handled were unlocked, and a host that was not unlocked ends the run |
| SafeStart.Run | safestart.py:124-163 | the host loop returns the per-host outcomes `RunOutcomes` describes |

## Left out

- The SSH transport (sshstuff.py): paramiko, the threaded stream piping and host-key storage are not part of this model. The client is an oracle (`SshClient.RemoteHost`) plus a call trace.
- `DBSSHClient.send_file_obj` is not defined in sshstuff.py. The model treats it as a plain upload call.
- log.py and every logging call, including the listing of diff entries in `main`.
- `load_config_file` and ConfigParser: the host list is a parameter of `SafeStart.Run`, and the platform is always `Ubuntu_14_04`.
- gzip decompression of the sum output: the listing is taken as already decompressed.
- UTF-8 decoding of `ip address list` output: `Bytes.Decode` maps each byte to one character, which is exact for ASCII output.
- Python's `re` and `fnmatch` engines: `INET_MATCH` is a hand-written matcher proved equal to the pattern's shape (`Platforms.InetMatchIff`). The exclusion globs need only `*`, and only that is translated.
- Platforms.InetMatch: on a line with a newline before its last character the pattern's `.` would stop at it and the match could differ. The scan never sees such a line (`Platforms.ScannedLinesInnerLF`), and the model does not capture that case.
- `EXCLUDE_PATTERN` (platforms.py:29-32) is never used by the code and is not modelled.
- SafeStart.AbsPath: only joins the working directory and the name. The `.`/`..` normalisation of `os.path.abspath` is not modelled.
- SafeStart.KnownHosts: a bare `known_hosts` argument yields None here, as in the code. `SafeStart.Run` takes a path, so the TypeError that None would later raise in `os.path.exists` is not modelled.
- `os.path.exists` and file I/O: the database files are a map from file name to contents, and whether the known-hosts file exists is a boolean.
- An exception escaping `connect` ends `main`. It is modelled as the outcome `NotConnected`, which stops the host loop.
- Every other exception escaping the tripwire code is the outcome `Crashed`. This covers ValueError on a malformed line, KeyError on a repeated excluded name, and TypeError on a missing snapshot.
- The order of Python dictionaries is not modelled: the parsed arguments are a map.
- The choice of platform class by name (`getattr(platforms, ...)`): only `Ubuntu_14_04` exists.

## Findings

| source | as written | input that shows it | evidently intended | confidence | as-written member | corrected member |
|---|---|---|---|---|---|---|
| safestart.py:62-65 | the `key= value` branch binds the next token but leaves `eat_me` at 0, so that token is parsed again as a key of its own | `known_hosts= update` gives `{known_hosts: 'update', update: None}`, and `main` then rewrites the database instead of comparing | the value token is consumed, as in `key = value` (`eat_me = 1`) | not executed | SafeStart.KnownHostsSpaceUpdate | SafeStart.KeyEqualsNext |

/**
 * `TripwireDatabase`: the remote snapshot fetched over SSH (sorted, with
 * excluded paths removed), the stored snapshot read from the host's
 * database file, their comparison, and the rewrite of the file from the
 * remote snapshot.
 */
module Tripwire {
  import opened Common
  import opened Bytes
  import opened SshClient
  import Platforms
  import opened TripwireFormat
  import opened TripwireDiff

  // ---------------------------------------------------------------------
  // Removing excluded names
  // ---------------------------------------------------------------------

  /** The names in order, without the excluded ones. */
  function Kept(names: seq<Bytes>): (k: seq<Bytes>)
    ensures forall x :: x in k <==> x in names && !Platforms.IsExcluded(x)
  {
    if names == [] then []
    else (if Platforms.IsExcluded(names[0]) then [] else [names[0]]) + Kept(names[1..])
  }

  lemma {:induction false} KeptAppend(names: seq<Bytes>, n: Bytes)
    ensures Kept(names + [n]) == Kept(names) + (if Platforms.IsExcluded(n) then [] else [n])
  {
    if names == [] {
      assert [n][1..] == [];
    } else {
      assert (names + [n])[1..] == names[1..] + [n];
      KeptAppend(names[1..], n);
    }
  }

  /** Removing names keeps a sorted list sorted. */
  lemma {:induction false} KeptSorted(names: seq<Bytes>)
    requires Sorted(names)
    ensures Sorted(Kept(names))
  {
    if names != [] {
      var rest := names[1..];
      KeptSorted(rest);
      var k := Kept(names);
      var tail := Kept(rest);
      forall y | y in tail
        ensures Below(names[0], y)
      {
        var j :| 0 <= j < |rest| && rest[j] == y;
        assert names[j + 1] == y;
      }
      forall i, j | 0 <= i < j < |k|
        ensures Below(k[i], k[j])
      {
        if !Platforms.IsExcluded(names[0]) && i == 0 {
          assert k[j] == tail[j - 1];
        } else if !Platforms.IsExcluded(names[0]) {
          assert k[i] == tail[i - 1] && k[j] == tail[j - 1];
        }
      }
    }
  }

  /** No name occurs twice. */
  predicate Distinct(s: seq<Bytes>) {
    forall i, j :: 0 <= i < j < |s| ==> s[i] != s[j]
  }

  lemma {:induction false} KeptDistinct(names: seq<Bytes>)
    requires Distinct(names)
    ensures Distinct(Kept(names))
  {
    if names != [] {
      var rest := names[1..];
      KeptDistinct(rest);
      var k := Kept(names);
      var tail := Kept(rest);
      assert names[0] !in rest by {
        forall j | 0 <= j < |rest|
          ensures rest[j] != names[0]
        {
          assert rest[j] == names[j + 1];
        }
      }
      forall i, j | 0 <= i < j < |k|
        ensures k[i] != k[j]
      {
        if !Platforms.IsExcluded(names[0]) && i == 0 {
          assert k[j] == tail[j - 1] && k[j] in tail;
        } else if !Platforms.IsExcluded(names[0]) {
          assert k[i] == tail[i - 1] && k[j] == tail[j - 1];
        }
      }
    }
  }

  /** The excluded names that occur in the list. */
  function ExcludedIn(names: seq<Bytes>): set<Bytes> {
    set n | n in names && Platforms.IsExcluded(n)
  }

  /** No excluded name occurs twice (a second `del` would raise KeyError). */
  predicate NoExcludedRepeat(names: seq<Bytes>) {
    forall i, j :: 0 <= i < j < |names| && names[i] == names[j] ==> !Platforms.IsExcluded(names[i])
  }

  /**
   * The exclusion loop of `get_remote_sums` over the names seen so far: an
   * excluded name is deleted from the map, any other is appended to the
   * clean list.
   */
  function Exclude(names: seq<Bytes>, sums: map<Bytes, Bytes>): Result<Table, Error> {
    if names == [] then Ok(Table([], sums))
    else
      var n := names[|names| - 1];
      match Exclude(names[..|names| - 1], sums)
      case Err(e) => Err(e)
      case Ok(t) =>
        if !Platforms.IsExcluded(n) then Ok(Table(t.names + [n], t.sums))
        else if n in t.sums then Ok(Table(t.names, t.sums - {n}))
        else Err(MissingKey(n))
  }

  /** Exclusion of one more name, in terms of the names before it. */
  lemma ExcludeStep(names: seq<Bytes>, sums: map<Bytes, Bytes>)
    requires names != [] && Exclude(names[..|names| - 1], sums).Ok?
    ensures var t := Exclude(names[..|names| - 1], sums).value;
            var n := names[|names| - 1];
            Exclude(names, sums)
              == if !Platforms.IsExcluded(n) then Ok(Table(t.names + [n], t.sums))
                 else if n in t.sums then Ok(Table(t.names, t.sums - {n}))
                 else Err(MissingKey(n))
  {
  }

  /** A successful exclusion keeps the non-excluded names, in order. */
  lemma {:induction false} ExcludeKeeps(names: seq<Bytes>, sums: map<Bytes, Bytes>)
    requires Exclude(names, sums).Ok?
    ensures Exclude(names, sums).value.names == Kept(names)
  {
    if names != [] {
      var init := names[..|names| - 1];
      var n := names[|names| - 1];
      assert names == init + [n];
      ExcludeKeeps(init, sums);
      ExcludeStep(names, sums);
      KeptAppend(init, n);
    }
  }

  /** A successful exclusion deletes exactly the excluded names from the map. */
  lemma {:induction false} ExcludeDeletes(names: seq<Bytes>, sums: map<Bytes, Bytes>)
    requires Exclude(names, sums).Ok?
    ensures Exclude(names, sums).value.sums == sums - ExcludedIn(names)
  {
    if names != [] {
      var init := names[..|names| - 1];
      var n := names[|names| - 1];
      assert names == init + [n];
      ExcludeDeletes(init, sums);
      ExcludeStep(names, sums);
      var ex := Platforms.IsExcluded(n);
      ExcludedInAppend(init, n, ex);
      DeleteStep(sums, ExcludedIn(init), Exclude(init, sums).value.sums, Exclude(names, sums).value.sums, n, ex);
    }
  }

  /** Deleting one more key from a map that already lacks a set of keys. */
  lemma DeleteStep(sums: map<Bytes, Bytes>, gone: set<Bytes>, before: map<Bytes, Bytes>, after: map<Bytes, Bytes>, n: Bytes, ex: bool)
    requires before == sums - gone
    requires after == if ex then before - {n} else before
    ensures after == sums - (if ex then gone + {n} else gone)
  {
  }

  lemma ExcludedInAppend(names: seq<Bytes>, n: Bytes, excluded: bool)
    requires excluded == Platforms.IsExcluded(n)
    ensures ExcludedIn(names + [n]) == if excluded then ExcludedIn(names) + {n} else ExcludedIn(names)
  {
    assert forall m :: m in names + [n] <==> m in names || m == n;
  }

  /** When every name is in the map, exclusion fails iff an excluded name is listed twice. */
  lemma {:induction false} ExcludeFails(names: seq<Bytes>, sums: map<Bytes, Bytes>)
    requires Covers(names, sums)
    ensures Exclude(names, sums).Ok? <==> NoExcludedRepeat(names)
  {
    if names != [] {
      var init := names[..|names| - 1];
      var n := names[|names| - 1];
      assert forall i :: 0 <= i < |init| ==> init[i] == names[i];
      ExcludeFails(init, sums);
      if Exclude(init, sums).Ok? {
        ExcludeDeletes(init, sums);
        ExcludeStep(names, sums);
        if Platforms.IsExcluded(n) && n in init {
          var i :| 0 <= i < |init| && init[i] == n;
          assert names[i] == names[|names| - 1];
        } else {
          forall i, j | 0 <= i < j < |names| && names[i] == names[j]
            ensures !Platforms.IsExcluded(names[i])
          {
            if j == |names| - 1 {
              assert names[i] in init;
            }
          }
        }
      }
    }
  }

  /** The excluded names' loop, deleting from the map in place. */
  method ExcludeNames(names: seq<Bytes>, nameMap: map<Bytes, Bytes>) returns (r: Result<Table, Error>)
    ensures r == Exclude(names, nameMap)
  {
    var cleanNames: seq<Bytes> := [];
    var m := nameMap;
    var k := 0;
    while k < |names|
      invariant 0 <= k <= |names|
      invariant Exclude(names[..k], nameMap) == Ok(Table(cleanNames, m))
    {
      var name := names[k];
      assert names[..k + 1][..k] == names[..k];
      if Platforms.IsExcluded(name) {
        if name !in m {
          ExcludeErrPrefix(names, nameMap, k + 1);
          return Err(MissingKey(name));
        }
        m := m - {name};
      } else {
        cleanNames := cleanNames + [name];
      }
      k := k + 1;
    }
    assert names[..k] == names;
    r := Ok(Table(cleanNames, m));
  }

  lemma {:induction false} ExcludeErrPrefix(names: seq<Bytes>, sums: map<Bytes, Bytes>, k: nat)
    requires k <= |names| && Exclude(names[..k], sums).Err?
    ensures Exclude(names, sums) == Exclude(names[..k], sums)
    decreases |names| - k
  {
    if k < |names| {
      assert names[..k + 1][..k] == names[..k];
      ExcludeErrPrefix(names, sums, k + 1);
    } else {
      assert names[..k] == names;
    }
  }

  // ---------------------------------------------------------------------
  // The remote snapshot
  // ---------------------------------------------------------------------

  /** The sorting and exclusion `get_remote_sums` applies to the parsed listing. */
  function Cleaned(t: Table): Result<Table, Error> {
    Exclude(Sort(t.names), t.sums)
  }

  /**
   * What `get_remote_sums` makes of the sum listing: parse it, sort the
   * names, remove the excluded ones. A failed sum command (no listing)
   * raises when the listing is iterated.
   */
  function RemoteSnapshot(listing: Option<Bytes>): Result<Table, Error> {
    if listing.None? then Err(NoRemoteSums)
    else
      match ParseLines(Lines(listing.value))
      case Err(e) => Err(e)
      case Ok(t) => Cleaned(t)
  }

  /** The listed names are exactly the keys of the map. */
  predicate Agree(names: seq<Bytes>, sums: map<Bytes, Bytes>) {
    Covers(names, sums) && forall n :: n in sums ==> n in names
  }

  lemma ParsedAgree(lines: seq<Bytes>)
    requires ParseLines(lines).Ok?
    ensures Agree(ParseLines(lines).value.names, ParseLines(lines).value.sums)
  {
    ParseLinesOk(lines);
    ParseLinesNames(lines);
  }

  /** Sorting keeps the same names. */
  lemma SortSameNames(s: seq<Bytes>)
    ensures forall n :: n in Sort(s) <==> n in s
  {
    var r := Sort(s);
    forall n
      ensures n in r <==> n in s
    {
      assert n in r <==> n in multiset(r);
      assert n in s <==> n in multiset(s);
    }
  }

  /** Excluding names from a sorted list whose names are the map's keys. */
  lemma ExcludeShape(names: seq<Bytes>, sums: map<Bytes, Bytes>)
    requires Sorted(names) && Agree(names, sums) && Exclude(names, sums).Ok?
    ensures var c := Exclude(names, sums).value;
            && Sorted(c.names)
            && (forall n :: n in c.names ==> !Platforms.IsExcluded(n))
            && Agree(c.names, c.sums)
  {
    var c := Exclude(names, sums).value;
    ExcludeKeeps(names, sums);
    ExcludeDeletes(names, sums);
    KeptSorted(names);
    forall i | 0 <= i < |c.names|
      ensures c.names[i] in c.sums
    {
      var n := c.names[i];
      assert n in Kept(names);
      assert n in names && !Platforms.IsExcluded(n);
      assert n !in ExcludedIn(names);
    }
    forall n | n in c.sums
      ensures n in c.names
    {
      assert n in sums && n !in ExcludedIn(names);
      assert n in names;
      assert n in Kept(names);
    }
  }

  /** The cleaned table is sorted, lists no excluded name, and maps exactly its names. */
  lemma CleanedShape(t: Table)
    requires Agree(t.names, t.sums) && Cleaned(t).Ok?
    ensures var c := Cleaned(t).value;
            && Sorted(c.names)
            && (forall n :: n in c.names ==> !Platforms.IsExcluded(n))
            && Agree(c.names, c.sums)
  {
    var sorted := Sort(t.names);
    SortAgree(t);
    ExcludeShape(sorted, t.sums);
  }

  /** Sorting the names keeps them the map's keys. */
  lemma SortAgree(t: Table)
    requires Agree(t.names, t.sums)
    ensures Sorted(Sort(t.names)) && Agree(Sort(t.names), t.sums)
  {
    SortSameNames(t.names);
    var sorted := Sort(t.names);
    forall i | 0 <= i < |sorted|
      ensures sorted[i] in t.sums
    {
      assert sorted[i] in t.names;
    }
  }

  /**
   * A fetched snapshot lists its names in ascending order, lists no
   * excluded name, and maps exactly the listed names.
   */
  lemma SnapshotShape(listing: Option<Bytes>)
    requires RemoteSnapshot(listing).Ok?
    ensures var t := RemoteSnapshot(listing).value;
            && Sorted(t.names)
            && (forall n :: n in t.names ==> !Platforms.IsExcluded(n))
            && Agree(t.names, t.sums)
  {
    ParsedAgree(Lines(listing.value));
    CleanedShape(ParseLines(Lines(listing.value)).value);
  }

  lemma {:induction false} DistinctMultiset(s: seq<Bytes>)
    ensures Distinct(s) <==> forall x :: multiset(s)[x] <= 1
  {
    if s != [] {
      var rest := s[1..];
      assert s == [s[0]] + rest;
      DistinctMultiset(rest);
      if Distinct(s) {
        assert Distinct(rest) by {
          forall i, j | 0 <= i < j < |rest|
            ensures rest[i] != rest[j]
          {
            assert rest[i] == s[i + 1] && rest[j] == s[j + 1];
          }
        }
        assert s[0] !in rest by {
          forall j | 0 <= j < |rest|
            ensures rest[j] != s[0]
          {
            assert rest[j] == s[j + 1];
          }
        }
      } else {
        var i, j :| 0 <= i < j < |s| && s[i] == s[j];
        if i == 0 {
          assert s[j] == rest[j - 1];
          assert multiset(s)[s[0]] == 1 + multiset(rest)[s[0]];
        } else {
          assert s[i] == rest[i - 1] && s[j] == rest[j - 1];
          assert !Distinct(rest);
          var x :| multiset(rest)[x] > 1;
          assert multiset(s)[x] >= multiset(rest)[x];
        }
      }
    }
  }

  /** Sorting a list without repeats gives a list without repeats. */
  lemma SortDistinct(s: seq<Bytes>)
    requires Distinct(s)
    ensures Distinct(Sort(s))
  {
    DistinctMultiset(s);
    DistinctMultiset(Sort(s));
  }

  /** A sorted list without repeats is strictly ascending. */
  lemma SortedDistinctStrict(s: seq<Bytes>)
    requires Sorted(s) && Distinct(s)
    ensures StrictlySorted(s)
  {
    forall i, j | 0 <= i < j < |s|
      ensures Less(s[i], s[j])
    {
      assert Below(s[i], s[j]) && s[i] != s[j];
    }
  }

  /** Cleaning a table whose names do not repeat succeeds and gives strictly ascending names. */
  lemma CleanedStrict(t: Table)
    requires Agree(t.names, t.sums) && Distinct(t.names)
    ensures Cleaned(t).Ok? && StrictlySorted(Cleaned(t).value.names)
  {
    var sorted := Sort(t.names);
    SortAgree(t);
    SortDistinct(t.names);
    ExcludeDistinct(sorted, t.sums);
  }

  /** Excluding names from a sorted list without repeats succeeds, and the kept names are strictly ascending. */
  lemma ExcludeDistinct(names: seq<Bytes>, sums: map<Bytes, Bytes>)
    requires Sorted(names) && Distinct(names) && Covers(names, sums)
    ensures Exclude(names, sums).Ok? && StrictlySorted(Exclude(names, sums).value.names)
  {
    ExcludeFails(names, sums);
    ExcludeKeeps(names, sums);
    KeptDistinct(names);
    KeptSorted(names);
    SortedDistinctStrict(Kept(names));
  }

  /**
   * When the listing names no path twice, the fetch succeeds whenever the
   * listing parses, and the snapshot's names are strictly ascending, as
   * the comparison needs.
   */
  lemma SnapshotStrict(listing: Option<Bytes>)
    requires listing.Some? && ParseLines(Lines(listing.value)).Ok?
    requires Distinct(ParseLines(Lines(listing.value)).value.names)
    ensures RemoteSnapshot(listing).Ok?
    ensures StrictlySorted(RemoteSnapshot(listing).value.names)
  {
    ParsedAgree(Lines(listing.value));
    CleanedStrict(ParseLines(Lines(listing.value)).value);
  }

  /** Every name and every sum a parse produces is a non-empty run without whitespace. */
  lemma {:induction false} ParsedTokens(lines: seq<Bytes>)
    requires ParseLines(lines).Ok?
    ensures var t := ParseLines(lines).value;
            (forall i :: 0 <= i < |t.names| ==> IsToken(t.names[i]))
            && forall n :: n in t.sums ==> IsToken(t.sums[n])
  {
    if lines != [] {
      var init := lines[..|lines| - 1];
      ParseLinesOk(lines);
      assert forall i :: 0 <= i < |init| ==> init[i] == lines[i];
      ParseLinesOk(init);
      ParsedTokens(init);
      ParseLinesStep(lines);
    }
  }

  /**
   * A fetched snapshot, once written with `_write_database`, reads back as
   * the same list and map: the stored database is what was fetched.
   */
  lemma SnapshotRereads(listing: Option<Bytes>)
    requires RemoteSnapshot(listing).Ok?
    ensures var t := RemoteSnapshot(listing).value;
            Covers(t.names, t.sums) && ParseLines(Lines(Serialize(t.names, t.sums))) == Ok(t)
  {
    var parsed := ParseLines(Lines(listing.value)).value;
    ParsedTokens(Lines(listing.value));
    SnapshotShape(listing);
    var sorted := Sort(parsed.names);
    var t := RemoteSnapshot(listing).value;
    ExcludeKeeps(sorted, parsed.sums);
    ExcludeDeletes(sorted, parsed.sums);
    forall i | 0 <= i < |t.names|
      ensures IsToken(t.names[i]) && IsToken(t.sums[t.names[i]])
    {
      var n := t.names[i];
      assert n in sorted;
      assert n in multiset(sorted);
      assert n in parsed.names;
      var j :| 0 <= j < |parsed.names| && parsed.names[j] == n;
    }
    WriteThenParse(t.names, t.sums);
  }

  // ---------------------------------------------------------------------
  // The comparison walk
  // ---------------------------------------------------------------------

  /**
   * The walk of `compare_databases`: the two-pointer merge while both
   * lists have names left, then the remote rest as `A`, then the stored
   * rest as `D`.
   */
  method Merge(names: seq<Bytes>, nameMap: map<Bytes, Bytes>,
               dbNames: seq<Bytes>, dbNameMap: map<Bytes, Bytes>) returns (diff: seq<Entry>)
    requires Covers(names, nameMap) && Covers(dbNames, dbNameMap)
    ensures diff == MergeDiff(names, nameMap, dbNames, dbNameMap)
  {
    ghost var total := MergeDiff(names, nameMap, dbNames, dbNameMap);
    var size, dbSize := |names|, |dbNames|;
    diff := [];
    var idx, dbIdx := 0, 0;
    assert names[0..] == names && dbNames[0..] == dbNames;
    while idx < size && dbIdx < dbSize
      invariant 0 <= idx <= size && 0 <= dbIdx <= dbSize
      invariant Covers(names[idx..], nameMap) && Covers(dbNames[dbIdx..], dbNameMap)
      invariant diff + MergeDiff(names[idx..], nameMap, dbNames[dbIdx..], dbNameMap) == total
      decreases size - idx + dbSize - dbIdx
    {
      var name, dbName := names[idx], dbNames[dbIdx];
      MergeDiffAt(names, nameMap, dbNames, dbNameMap, idx, dbIdx);
      var step: seq<Entry>, nextIdx, nextDbIdx;
      if name == dbName {
        step := if nameMap[name] != dbNameMap[dbName] then [Entry(Updated, name)] else [];
        nextIdx, nextDbIdx := idx + 1, dbIdx + 1;
      } else if Less(dbName, name) {
        step := [Entry(Deleted, dbName)];
        nextIdx, nextDbIdx := idx, dbIdx + 1;
      } else {
        step := [Entry(Added, name)];
        nextIdx, nextDbIdx := idx + 1, dbIdx;
      }
      AppendAssoc(diff, step, MergeDiff(names[nextIdx..], nameMap, dbNames[nextDbIdx..], dbNameMap));
      diff := diff + step;
      idx, dbIdx := nextIdx, nextDbIdx;
    }
    MergeDiffRest(names[idx..], nameMap, dbNames[dbIdx..], dbNameMap);
    AppendAssoc(diff, Tagged(Added, names[idx..]), Tagged(Deleted, dbNames[dbIdx..]));
    diff := AppendTagged(diff, Added, names, idx);
    diff := AppendTagged(diff, Deleted, dbNames, dbIdx);
  }

  /** One of the two closing loops of `compare_databases`: tag every name from `from` on. */
  method AppendTagged(diff: seq<Entry>, action: Action, names: seq<Bytes>, from: nat) returns (r: seq<Entry>)
    requires from <= |names|
    ensures r == diff + Tagged(action, names[from..])
  {
    r := diff;
    var idx := from;
    while idx < |names|
      invariant from <= idx <= |names|
      invariant |r| == |diff| + idx - from && r[..|diff|] == diff
      invariant forall k :: |diff| <= k < |r| ==> r[k] == Entry(action, names[from + k - |diff|])
    {
      r := r + [Entry(action, names[idx])];
      idx := idx + 1;
    }
    var tagged := Tagged(action, names[from..]);
    assert forall k :: 0 <= k < |tagged| ==> r[|diff| + k] == tagged[k];
    assert r == diff + tagged;
  }

  // ---------------------------------------------------------------------
  // The database object
  // ---------------------------------------------------------------------

  /** The calls `get_remote_sums` makes on the client. */
  function SumCalls(): seq<Call> {
    [Call.SendFile(Platforms.SUM_PROGRAM_LOCAL, Platforms.SUM_PROGRAM_REMOTE),
     Call.Chmod(Platforms.SUM_PROGRAM_REMOTE, "755"),
     Call.Exec(Platforms.SUM_COMMAND),
     Call.Rm(Platforms.SUM_PROGRAM_REMOTE)]
  }

  class TripwireDatabase {
    const client: Client
    const host: string
    const dbFilename: string
    /** Whether the database file existed when the object was made. */
    var dbFileExists: bool
    /** The content of the database file, `None` while there is no such file. */
    var dbFile: Option<Bytes>
    var remoteNames: Option<seq<Bytes>>
    var remoteNameMap: Option<map<Bytes, Bytes>>
    var dbNames: Option<seq<Bytes>>
    var dbNameMap: Option<map<Bytes, Bytes>>

    /** Each list is set together with its map, and the map holds exactly the listed names. */
    predicate Valid()
      reads this
    {
      && remoteNames.Some? == remoteNameMap.Some?
      && (remoteNames.Some? ==> Agree(remoteNames.value, remoteNameMap.value))
      && dbNames.Some? == dbNameMap.Some?
      && (dbNames.Some? ==> Agree(dbNames.value, dbNameMap.value))
      && (dbFileExists ==> dbFile.Some?)
    }

    /** The object before `_load_database`: `disk` is the content of the host's database file, if it exists. */
    constructor (client: Client, host: string, disk: Option<Bytes>)
      ensures this.client == client && this.host == host && dbFilename == DbFileName(host)
      ensures dbFileExists == disk.Some? && dbFile == disk
      ensures remoteNames.None? && remoteNameMap.None? && dbNames.None? && dbNameMap.None?
      ensures Valid()
    {
      this.client := client;
      this.host := host;
      dbFilename := DbFileName(host);
      dbFileExists := disk.Some?;
      dbFile := disk;
      remoteNames, remoteNameMap := None, None;
      dbNames, dbNameMap := None, None;
    }

    /** `_load_database`: parse the file when it exists; a malformed line raises. */
    method LoadDatabase() returns (err: Option<Error>)
      requires Valid()
      modifies this
      ensures Valid()
      ensures dbFileExists == old(dbFileExists) && dbFile == old(dbFile)
      ensures remoteNames == old(remoteNames) && remoteNameMap == old(remoteNameMap)
      ensures !dbFileExists ==> err.None? && dbNames == old(dbNames) && dbNameMap == old(dbNameMap)
      ensures dbFileExists ==>
                match ParseLines(Lines(dbFile.value))
                case Ok(t) => err.None? && dbNames == Some(t.names) && dbNameMap == Some(t.sums)
                case Err(e) => err == Some(e) && dbNames == old(dbNames) && dbNameMap == old(dbNameMap)
    {
      if !dbFileExists {
        return None;
      }
      var r := ParseDatabase(Lines(dbFile.value));
      if r.Err? {
        return Some(r.error);
      }
      ParsedAgree(Lines(dbFile.value));
      dbNames, dbNameMap := Some(r.value.names), Some(r.value.sums);
      err := None;
    }

    /** `__init__`: make the object and load the database file if there is one. */
    static method Open(client: Client, host: string, disk: Option<Bytes>) returns (db: TripwireDatabase, err: Option<Error>)
      ensures fresh(db) && db.Valid()
      ensures db.client == client && db.host == host && db.dbFilename == DbFileName(host)
      ensures db.dbFileExists == disk.Some? && db.dbFile == disk
      ensures db.remoteNames.None?
      ensures disk.None? ==> err.None? && db.dbNames.None?
      ensures disk.Some? ==>
                match ParseLines(Lines(disk.value))
                case Ok(t) => err.None? && db.dbNames == Some(t.names) && db.dbNameMap == Some(t.sums)
                case Err(e) => err == Some(e)
    {
      db := new TripwireDatabase(client, host, disk);
      err := db.LoadDatabase();
    }

    /** `get_remote_sums`: fetch, parse, sort and clean the remote listing; nothing is stored on failure. */
    method GetRemoteSums() returns (err: Option<Error>)
      requires Valid()
      modifies this, client
      ensures Valid()
      ensures client.calls == old(client.calls) + SumCalls()
      ensures dbFileExists == old(dbFileExists) && dbFile == old(dbFile)
      ensures dbNames == old(dbNames) && dbNameMap == old(dbNameMap)
      ensures var s := RemoteSnapshot(Platforms.SumsOutput(client.remote));
              if s.Ok? then err.None? && remoteNames == Some(s.value.names) && remoteNameMap == Some(s.value.sums)
              else err == Some(s.error) && remoteNames == old(remoteNames) && remoteNameMap == old(remoteNameMap)
    {
      var sumsStream := Platforms.GetRemoteSums(client);
      if sumsStream.None? {
        return Some(NoRemoteSums);
      }
      var parsed := ParseDatabase(Lines(sumsStream.value));
      if parsed.Err? {
        return Some(parsed.error);
      }
      var names := Sort(parsed.value.names);
      var clean := ExcludeNames(names, parsed.value.sums);
      if clean.Err? {
        return Some(clean.error);
      }
      SnapshotShape(sumsStream);
      remoteNames, remoteNameMap := Some(clean.value.names), Some(clean.value.sums);
      err := None;
    }

    /** `compare_databases`: the two-pointer merge, then the remote tail as `A`, then the stored tail as `D`. */
    method CompareDatabases() returns (r: Result<seq<Entry>, Error>)
      requires Valid()
      ensures remoteNames.None? ==> r == Err(NoRemoteSnapshot)
      ensures remoteNames.Some? && dbNames.None? ==> r == Err(NoDatabase)
      ensures remoteNames.Some? && dbNames.Some? ==>
                r == Ok(MergeDiff(remoteNames.value, remoteNameMap.value, dbNames.value, dbNameMap.value))
    {
      if remoteNames.None? {
        return Err(NoRemoteSnapshot);
      }
      if dbNames.None? {
        return Err(NoDatabase);
      }
      var diff := Merge(remoteNames.value, remoteNameMap.value, dbNames.value, dbNameMap.value);
      r := Ok(diff);
    }

    /** `_write_database`: truncate the file, then write one record per stored name, in list order. */
    method WriteDatabase() returns (err: Option<Error>)
      requires Valid()
      modifies this
      ensures Valid()
      ensures dbFileExists == old(dbFileExists)
      ensures remoteNames == old(remoteNames) && remoteNameMap == old(remoteNameMap)
      ensures dbNames == old(dbNames) && dbNameMap == old(dbNameMap)
      ensures dbNames.Some? ==> err.None? && dbFile == Some(Serialize(dbNames.value, dbNameMap.value))
      ensures dbNames.None? ==> err == Some(NoDatabase) && dbFile == Some([])
    {
      dbFile := Some([]);
      if dbNames.None? {
        return Some(NoDatabase);
      }
      var names, nameMap := dbNames.value, dbNameMap.value;
      var k := 0;
      while k < |names|
        invariant 0 <= k <= |names|
        invariant Covers(names[..k], nameMap)
        invariant dbFile == Some(Serialize(names[..k], nameMap))
        invariant dbFileExists == old(dbFileExists)
        invariant remoteNames == old(remoteNames) && remoteNameMap == old(remoteNameMap)
        invariant dbNames == old(dbNames) && dbNameMap == old(dbNameMap)
      {
        var name := names[k];
        assert names[..k + 1] == names[..k] + [name];
        SerializeAppend(names[..k], nameMap, name);
        dbFile := Some(dbFile.value + Record(nameMap[name], name));
        k := k + 1;
      }
      assert names[..k] == names;
      err := None;
    }

    /** `update_database`: the stored snapshot becomes the remote one and is written out. */
    method UpdateDatabase() returns (err: Option<Error>)
      requires Valid()
      modifies this
      ensures Valid()
      ensures dbNames == old(remoteNames) && dbNameMap == old(remoteNameMap)
      ensures remoteNames == old(remoteNames) && remoteNameMap == old(remoteNameMap)
      ensures dbFileExists == old(dbFileExists)
      ensures remoteNames.Some? ==> err.None? && dbFile == Some(Serialize(remoteNames.value, remoteNameMap.value))
      ensures remoteNames.None? ==> err == Some(NoDatabase) && dbFile == Some([])
    {
      dbNames, dbNameMap := remoteNames, remoteNameMap;
      err := WriteDatabase();
    }
  }
}

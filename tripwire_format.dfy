/**
 * The tripwire database file: one `sum<whitespace>name` record per line.
 * `_parse_database` reads such a stream into a name list and a name -> sum
 * map; `_write_database` writes `sum<TAB>name<LF>` lines back; and the file
 * of a host is called `<host>.tripwire.db`.
 */
module TripwireFormat {
  import opened Common
  import opened Bytes

  /** A snapshot: the names in the order they were read, and each name's sum. */
  datatype Table = Table(names: seq<Bytes>, sums: map<Bytes, Bytes>)

  /** The exceptions the tripwire code lets escape. */
  datatype Error =
    | MalformedLine(line: Bytes)  // ValueError: a line does not split into exactly two fields
    | MissingKey(name: Bytes)     // KeyError: an excluded name no longer in the map (it was listed twice)
    | NoRemoteSums                // TypeError: iterating the None of a failed sum command
    | NoRemoteSnapshot            // TypeError: using the remote snapshot before it was fetched
    | NoDatabase                  // TypeError: using the stored snapshot when none was loaded

  /** The database file of a host. */
  function DbFileName(host: string): (f: string)
    ensures |f| == |host| + 12 && f[..|host|] == host && f[|host|..] == ".tripwire.db"
  {
    host + ".tripwire.db"
  }

  /** Different hosts never share a database file. */
  lemma DbFileNameInjective(a: string, b: string)
    requires DbFileName(a) == DbFileName(b)
    ensures a == b
  {
    assert a == DbFileName(a)[..|a|];
  }

  // ---------------------------------------------------------------------
  // Reading: `_parse_database`
  // ---------------------------------------------------------------------

  /** `line.strip().split()` unpacks into exactly (sum, name). */
  predicate IsRecord(line: Bytes) {
    |Fields(line)| == 2
  }

  function SumOf(line: Bytes): Bytes
    requires IsRecord(line)
  {
    Fields(line)[0]
  }

  function NameOf(line: Bytes): Bytes
    requires IsRecord(line)
  {
    Fields(line)[1]
  }

  /**
   * What `_parse_database` returns for the lines read so far: the names
   * appended in order and the map updated name by name, or the ValueError
   * of the first line that is not a record.
   */
  function ParseLines(lines: seq<Bytes>): Result<Table, Error> {
    if lines == [] then Ok(Table([], map[]))
    else
      var last := lines[|lines| - 1];
      match ParseLines(lines[..|lines| - 1])
      case Err(e) => Err(e)
      case Ok(t) =>
        if IsRecord(last) then Ok(Table(t.names + [NameOf(last)], t.sums[NameOf(last) := SumOf(last)]))
        else Err(MalformedLine(last))
  }

  /** Parsing succeeds iff every line is a record: no line is ever skipped. */
  lemma {:induction false} ParseLinesOk(lines: seq<Bytes>)
    ensures ParseLines(lines).Ok? <==> forall i :: 0 <= i < |lines| ==> IsRecord(lines[i])
  {
    if lines != [] {
      var init := lines[..|lines| - 1];
      ParseLinesOk(init);
      assert forall i :: 0 <= i < |init| ==> init[i] == lines[i];
    }
  }

  /** Once a prefix fails, the whole stream fails with the same error. */
  lemma {:induction false} ParseLinesErrPrefix(lines: seq<Bytes>, k: nat)
    requires k <= |lines| && ParseLines(lines[..k]).Err?
    ensures ParseLines(lines) == ParseLines(lines[..k])
    decreases |lines| - k
  {
    if k < |lines| {
      var lines' := lines[..k + 1];
      assert lines'[..k] == lines[..k];
      assert ParseLines(lines') == ParseLines(lines[..k]);
      ParseLinesErrPrefix(lines, k + 1);
    } else {
      assert lines[..k] == lines;
    }
  }

  /** The error is the ValueError of the first line that is not a record. */
  lemma ParseLinesFirstError(lines: seq<Bytes>, i: nat)
    requires i < |lines| && !IsRecord(lines[i])
    requires forall j :: 0 <= j < i ==> IsRecord(lines[j])
    ensures ParseLines(lines) == Err(MalformedLine(lines[i]))
  {
    var prefix := lines[..i];
    assert forall j :: 0 <= j < |prefix| ==> IsRecord(prefix[j]);
    ParseLinesOk(prefix);
    assert lines[..i + 1][..i] == prefix;
    ParseLinesErrPrefix(lines, i + 1);
  }

  /** The table after one more record line. */
  lemma ParseLinesStep(lines: seq<Bytes>)
    requires lines != [] && ParseLines(lines[..|lines| - 1]).Ok? && IsRecord(lines[|lines| - 1])
    ensures var t0 := ParseLines(lines[..|lines| - 1]).value;
            var last := lines[|lines| - 1];
            ParseLines(lines) == Ok(Table(t0.names + [NameOf(last)], t0.sums[NameOf(last) := SumOf(last)]))
  {
  }

  /** A parsed table lists the names in line order and maps exactly the listed names. */
  lemma {:induction false} ParseLinesNames(lines: seq<Bytes>)
    requires forall i :: 0 <= i < |lines| ==> IsRecord(lines[i])
    ensures ParseLines(lines).Ok?
    ensures var t := ParseLines(lines).value;
            && |t.names| == |lines|
            && (forall i :: 0 <= i < |lines| ==> t.names[i] == NameOf(lines[i]))
            && (forall n :: n in t.sums <==> n in t.names)
  {
    ParseLinesOk(lines);
    if lines != [] {
      var init := lines[..|lines| - 1];
      var last := lines[|lines| - 1];
      assert forall i :: 0 <= i < |init| ==> init[i] == lines[i];
      ParseLinesNames(init);
      ParseLinesStep(lines);
      var t0 := ParseLines(init).value;
      var t := ParseLines(lines).value;
      forall n
        ensures n in t.sums <==> n in t.names
      {
        assert n in t.names <==> n in t0.names || n == NameOf(last);
      }
    }
  }

  /** For a name on several lines, the map keeps the sum of the last of them. */
  lemma {:induction false} ParseLinesLastWins(lines: seq<Bytes>, i: nat)
    requires forall k :: 0 <= k < |lines| ==> IsRecord(lines[k])
    requires i < |lines|
    requires forall j :: i < j < |lines| ==> NameOf(lines[j]) != NameOf(lines[i])
    ensures ParseLines(lines).Ok? && NameOf(lines[i]) in ParseLines(lines).value.sums
    ensures ParseLines(lines).value.sums[NameOf(lines[i])] == SumOf(lines[i])
  {
    ParseLinesNames(lines);
    var init := lines[..|lines| - 1];
    assert forall k :: 0 <= k < |init| ==> init[k] == lines[k];
    ParseLinesOk(init);
    ParseLinesStep(lines);
    if i < |init| {
      ParseLinesLastWins(init, i);
    }
  }

  /** `_parse_database`: the loop over the lines, building the list and the map in place. */
  method ParseDatabase(lines: seq<Bytes>) returns (r: Result<Table, Error>)
    ensures r == ParseLines(lines)
  {
    var names: seq<Bytes> := [];
    var nameMap: map<Bytes, Bytes> := map[];
    var k := 0;
    while k < |lines|
      invariant 0 <= k <= |lines|
      invariant ParseLines(lines[..k]) == Ok(Table(names, nameMap))
    {
      var fields := Fields(lines[k]);
      assert lines[..k + 1][..k] == lines[..k];
      if |fields| != 2 {
        ParseLinesErrPrefix(lines, k + 1);
        return Err(MalformedLine(lines[k]));
      }
      var fileSum, fileName := fields[0], fields[1];
      nameMap := nameMap[fileName := fileSum];
      names := names + [fileName];
      k := k + 1;
    }
    assert lines[..k] == lines;
    r := Ok(Table(names, nameMap));
  }

  // ---------------------------------------------------------------------
  // Writing: `_write_database`
  // ---------------------------------------------------------------------

  /** One written record. */
  function Record(sum: Bytes, name: Bytes): Bytes {
    sum + [TAB] + name + [LF]
  }

  /** A name or sum that survives the write/read round trip. */
  predicate IsToken(b: Bytes) {
    b != [] && NoSpace(b)
  }

  predicate Covers(names: seq<Bytes>, sums: map<Bytes, Bytes>) {
    forall i :: 0 <= i < |names| ==> names[i] in sums
  }

  /** The records of the names, in list order, each with the name's sum. */
  function Records(names: seq<Bytes>, sums: map<Bytes, Bytes>): (rs: seq<Bytes>)
    requires Covers(names, sums)
    ensures |rs| == |names|
    ensures forall i :: 0 <= i < |names| ==> rs[i] == Record(sums[names[i]], names[i])
  {
    if names == [] then []
    else Records(names[..|names| - 1], sums) + [Record(sums[names[|names| - 1]], names[|names| - 1])]
  }

  /** The content `_write_database` leaves in the file. */
  function Serialize(names: seq<Bytes>, sums: map<Bytes, Bytes>): Bytes
    requires Covers(names, sums)
  {
    Concat(Records(names, sums))
  }

  /** Writing one more name appends its record. */
  lemma SerializeAppend(names: seq<Bytes>, sums: map<Bytes, Bytes>, name: Bytes)
    requires Covers(names, sums) && name in sums
    ensures Covers(names + [name], sums)
    ensures Serialize(names + [name], sums) == Serialize(names, sums) + Record(sums[name], name)
  {
    assert (names + [name])[..|names|] == names;
    ConcatAppend(Records(names, sums), Record(sums[name], name));
  }

  lemma RecordIsLine(sum: Bytes, name: Bytes)
    requires IsToken(sum) && IsToken(name)
    ensures IsLine(Record(sum, name))
  {
    var r := Record(sum, name);
    forall i | 0 <= i < |r| - 1
      ensures r[i] != LF
    {
      if i < |sum| {
        assert r[i] == sum[i];
      } else if i > |sum| {
        assert r[i] == name[i - |sum| - 1];
      }
    }
  }

  /** The map a parse of `Records(names, sums)` builds. */
  function Restrict(names: seq<Bytes>, sums: map<Bytes, Bytes>): map<Bytes, Bytes>
    requires Covers(names, sums)
  {
    map n | n in names :: sums[n]
  }

  lemma RestrictAppend(names: seq<Bytes>, sums: map<Bytes, Bytes>, name: Bytes)
    requires Covers(names, sums) && name in sums
    ensures Covers(names + [name], sums)
    ensures Restrict(names, sums)[name := sums[name]] == Restrict(names + [name], sums)
  {
  }

  lemma {:induction false} ParseRecords(names: seq<Bytes>, sums: map<Bytes, Bytes>)
    requires Covers(names, sums)
    requires forall i :: 0 <= i < |names| ==> IsToken(names[i]) && IsToken(sums[names[i]])
    ensures ParseLines(Records(names, sums)) == Ok(Table(names, Restrict(names, sums)))
  {
    if names != [] {
      var init := names[..|names| - 1];
      var name := names[|names| - 1];
      assert names == init + [name];
      var rs := Records(names, sums);
      var last := rs[|rs| - 1];
      assert rs[..|rs| - 1] == Records(init, sums);
      ParseRecords(init, sums);
      FieldsOfRecord(sums[name], name);
      assert last == Record(sums[name], name);
      assert NameOf(last) == name && SumOf(last) == sums[name];
      RestrictAppend(init, sums, name);
    }
  }

  /**
   * Re-reading what `_write_database` wrote gives back the list and the
   * map, when every name and sum is a non-empty run without whitespace and
   * the map holds exactly the listed names.
   */
  lemma WriteThenParse(names: seq<Bytes>, sums: map<Bytes, Bytes>)
    requires forall n :: n in sums <==> n in names
    requires forall i :: 0 <= i < |names| ==> IsToken(names[i]) && IsToken(sums[names[i]])
    ensures Covers(names, sums)
    ensures ParseLines(Lines(Serialize(names, sums))) == Ok(Table(names, sums))
  {
    var rs := Records(names, sums);
    forall i | 0 <= i < |rs|
      ensures IsLine(rs[i])
    {
      RecordIsLine(sums[names[i]], names[i]);
    }
    LinesOfConcat(rs);
    ParseRecords(names, sums);
    assert Restrict(names, sums) == sums;
  }
}

/**
 * The comparison of two snapshots that `compare_databases` performs: a
 * merge of the remote name list with the stored one, emitting `A` for a
 * name only the remote has, `D` for a name only the database has, and `U`
 * for a name both have with different sums.
 */
module TripwireDiff {
  import opened Bytes
  import opened TripwireFormat

  /** The tags `A`, `D` and `U` of a difference entry. */
  datatype Action = Added | Deleted | Updated

  datatype Entry = Entry(action: Action, name: Bytes)

  /** One entry with the given tag per name, in list order. */
  function Tagged(action: Action, names: seq<Bytes>): (d: seq<Entry>)
    ensures |d| == |names|
    ensures forall i :: 0 <= i < |names| ==> d[i] == Entry(action, names[i])
  {
    if names == [] then [] else [Entry(action, names[0])] + Tagged(action, names[1..])
  }

  /**
   * The differences the merge emits: the two-pointer walk over both lists,
   * then the remaining remote names as `A`, then the remaining stored names
   * as `D`.
   */
  function MergeDiff(names: seq<Bytes>, sums: map<Bytes, Bytes>,
                     dbNames: seq<Bytes>, dbSums: map<Bytes, Bytes>): (d: seq<Entry>)
    requires Covers(names, sums) && Covers(dbNames, dbSums)
    ensures |d| <= |names| + |dbNames|
    decreases |names| + |dbNames|
  {
    if names == [] then Tagged(Deleted, dbNames)
    else if dbNames == [] then Tagged(Added, names)
    else
      var name, dbName := names[0], dbNames[0];
      if name == dbName then
        (if sums[name] != dbSums[dbName] then [Entry(Updated, name)] else [])
          + MergeDiff(names[1..], sums, dbNames[1..], dbSums)
      else if Less(dbName, name) then
        [Entry(Deleted, dbName)] + MergeDiff(names, sums, dbNames[1..], dbSums)
      else
        [Entry(Added, name)] + MergeDiff(names[1..], sums, dbNames, dbSums)
  }

  lemma CoversFrom(names: seq<Bytes>, sums: map<Bytes, Bytes>, i: nat)
    requires Covers(names, sums) && i <= |names|
    ensures Covers(names[i..], sums)
  {
    forall k | 0 <= k < |names[i..]|
      ensures names[i..][k] in sums
    {
      assert names[i..][k] == names[i + k];
    }
  }

  /** One step of the merge, taken at positions `i` and `j` of the two lists. */
  lemma MergeDiffAt(names: seq<Bytes>, sums: map<Bytes, Bytes>,
                    dbNames: seq<Bytes>, dbSums: map<Bytes, Bytes>, i: nat, j: nat)
    requires Covers(names, sums) && Covers(dbNames, dbSums)
    requires i < |names| && j < |dbNames|
    ensures Covers(names[i..], sums) && Covers(dbNames[j..], dbSums)
    ensures Covers(names[i + 1..], sums) && Covers(dbNames[j + 1..], dbSums)
    ensures names[i] == dbNames[j] ==>
              MergeDiff(names[i..], sums, dbNames[j..], dbSums)
              == (if sums[names[i]] != dbSums[dbNames[j]] then [Entry(Updated, names[i])] else [])
                 + MergeDiff(names[i + 1..], sums, dbNames[j + 1..], dbSums)
    ensures names[i] != dbNames[j] && Less(dbNames[j], names[i]) ==>
              MergeDiff(names[i..], sums, dbNames[j..], dbSums)
              == [Entry(Deleted, dbNames[j])] + MergeDiff(names[i..], sums, dbNames[j + 1..], dbSums)
    ensures names[i] != dbNames[j] && !Less(dbNames[j], names[i]) ==>
              MergeDiff(names[i..], sums, dbNames[j..], dbSums)
              == [Entry(Added, names[i])] + MergeDiff(names[i + 1..], sums, dbNames[j..], dbSums)
  {
    CoversFrom(names, sums, i);
    CoversFrom(dbNames, dbSums, j);
    CoversFrom(names, sums, i + 1);
    CoversFrom(dbNames, dbSums, j + 1);
    assert names[i..][1..] == names[i + 1..];
    assert dbNames[j..][1..] == dbNames[j + 1..];
  }

  /** Once one list is used up, the rest of the other is emitted: remote names as `A`, stored names as `D`. */
  lemma MergeDiffRest(names: seq<Bytes>, sums: map<Bytes, Bytes>, dbNames: seq<Bytes>, dbSums: map<Bytes, Bytes>)
    requires Covers(names, sums) && Covers(dbNames, dbSums)
    requires names == [] || dbNames == []
    ensures MergeDiff(names, sums, dbNames, dbSums) == Tagged(Added, names) + Tagged(Deleted, dbNames)
  {
    if names == [] {
      assert Tagged(Added, names) == [];
    } else {
      assert Tagged(Deleted, dbNames) == [];
    }
  }

  /** Regrouping of entry lists; keeps the solver from searching for it. */
  lemma AppendAssoc(a: seq<Entry>, b: seq<Entry>, c: seq<Entry>)
    ensures a + b + c == a + (b + c)
  {
  }

  /** Tagging the rest of a list from position `i` on. */
  lemma TaggedAt(action: Action, names: seq<Bytes>, i: nat)
    requires i < |names|
    ensures Tagged(action, names[i..]) == [Entry(action, names[i])] + Tagged(action, names[i + 1..])
  {
    assert names[i..][1..] == names[i + 1..];
  }

  /** Comparing a snapshot with itself finds no difference. */
  lemma {:induction false} MergeDiffSame(names: seq<Bytes>, sums: map<Bytes, Bytes>)
    requires Covers(names, sums)
    ensures MergeDiff(names, sums, names, sums) == []
  {
    if names != [] {
      MergeDiffSame(names[1..], sums);
    }
  }

  /** Every emitted name comes from one of the two lists. */
  lemma {:induction false} MergeDiffNames(names: seq<Bytes>, sums: map<Bytes, Bytes>,
                                          dbNames: seq<Bytes>, dbSums: map<Bytes, Bytes>)
    requires Covers(names, sums) && Covers(dbNames, dbSums)
    ensures forall e :: e in MergeDiff(names, sums, dbNames, dbSums) ==> e.name in names || e.name in dbNames
    decreases |names| + |dbNames|
  {
    if names != [] && dbNames != [] {
      var name, dbName := names[0], dbNames[0];
      if name == dbName {
        MergeDiffNames(names[1..], sums, dbNames[1..], dbSums);
      } else if Less(dbName, name) {
        MergeDiffNames(names, sums, dbNames[1..], dbSums);
      } else {
        MergeDiffNames(names[1..], sums, dbNames, dbSums);
      }
    }
  }

  /**
   * For any inputs, the diff is empty iff both lists are the same sequence
   * and every listed name has the same sum on both sides.
   */
  lemma {:induction false} MergeDiffNone(names: seq<Bytes>, sums: map<Bytes, Bytes>,
                                         dbNames: seq<Bytes>, dbSums: map<Bytes, Bytes>)
    requires Covers(names, sums) && Covers(dbNames, dbSums)
    ensures MergeDiff(names, sums, dbNames, dbSums) == [] <==>
              names == dbNames && forall i :: 0 <= i < |names| ==> sums[names[i]] == dbSums[names[i]]
    decreases |names| + |dbNames|
  {
    if names != [] && dbNames != [] {
      var name, dbName := names[0], dbNames[0];
      if name == dbName {
        var rest, dbRest := names[1..], dbNames[1..];
        MergeDiffNone(rest, sums, dbRest, dbSums);
        assert names == [name] + rest && dbNames == [dbName] + dbRest;
        if names == dbNames && forall i :: 0 <= i < |names| ==> sums[names[i]] == dbSums[names[i]] {
          assert rest == dbRest;
          assert forall i :: 0 <= i < |rest| ==> rest[i] == names[i + 1];
          assert sums[names[0]] == dbSums[names[0]];
        }
        if rest == dbRest && sums[name] == dbSums[dbName] && forall i :: 0 <= i < |rest| ==> sums[rest[i]] == dbSums[rest[i]] {
          forall i | 0 <= i < |names|
            ensures sums[names[i]] == dbSums[names[i]]
          {
            if i > 0 {
              assert names[i] == rest[i - 1];
            }
          }
        }
      } else if Less(dbName, name) {
        assert names[0] != dbNames[0];
      } else {
        assert names[0] != dbNames[0];
      }
    }
  }

  // ---------------------------------------------------------------------
  // Sorted inputs
  // ---------------------------------------------------------------------

  /** In a strictly ascending list, the head is below every later name, so it is not repeated. */
  lemma HeadBelowRest(s: seq<Bytes>)
    requires s != [] && StrictlySorted(s)
    ensures StrictlySorted(s[1..])
    ensures forall x :: x in s[1..] ==> Less(s[0], x)
    ensures s[0] !in s[1..]
  {
    forall x | x in s[1..]
      ensures Less(s[0], x)
    {
      var j :| 0 <= j < |s[1..]| && s[1..][j] == x;
      assert s[j + 1] == x;
    }
  }

  /** A name below the head of a strictly ascending list is not in it. */
  lemma BelowHeadAbsent(s: seq<Bytes>, x: Bytes)
    requires s != [] && StrictlySorted(s) && Less(x, s[0])
    ensures x !in s
  {
    HeadBelowRest(s);
    forall y | y in s[1..]
      ensures y != x
    {
      LessTransitive(x, s[0], y);
      Trichotomy(x, y);
    }
    assert s == [s[0]] + s[1..];
  }

  /**
   * On strictly ascending lists (as `get_remote_sums` and a written database
   * provide them), a name is tagged `A` iff only the remote has it, `D` iff
   * only the database has it, and `U` iff both have it with different sums.
   */
  lemma {:induction false} MergeDiffClassifies(names: seq<Bytes>, sums: map<Bytes, Bytes>,
                                               dbNames: seq<Bytes>, dbSums: map<Bytes, Bytes>, n: Bytes)
    requires Covers(names, sums) && Covers(dbNames, dbSums)
    requires StrictlySorted(names) && StrictlySorted(dbNames)
    ensures var d := MergeDiff(names, sums, dbNames, dbSums);
            && (Entry(Added, n) in d <==> n in names && n !in dbNames)
            && (Entry(Deleted, n) in d <==> n in dbNames && n !in names)
            && (Entry(Updated, n) in d <==> n in names && n in dbNames && sums[n] != dbSums[n])
    decreases |names| + |dbNames|
  {
    var d := MergeDiff(names, sums, dbNames, dbSums);
    if names == [] {
      assert forall e :: e in d ==> e.action == Deleted && e.name in dbNames;
      assert n in dbNames ==> Entry(Deleted, n) in d;
    } else if dbNames == [] {
      assert forall e :: e in d ==> e.action == Added && e.name in names;
      assert n in names ==> Entry(Added, n) in d;
    } else {
      var name, dbName := names[0], dbNames[0];
      assert names == [name] + names[1..] && dbNames == [dbName] + dbNames[1..];
      HeadBelowRest(names);
      HeadBelowRest(dbNames);
      if name == dbName {
        MergeDiffClassifies(names[1..], sums, dbNames[1..], dbSums, n);
      } else if Less(dbName, name) {
        BelowHeadAbsent(names, dbName);
        MergeDiffClassifies(names, sums, dbNames[1..], dbSums, n);
      } else {
        Trichotomy(name, dbName);
        BelowHeadAbsent(dbNames, name);
        MergeDiffClassifies(names[1..], sums, dbNames, dbSums, n);
      }
    }
  }

  /** The emitted names, in order. */
  function EntryNames(d: seq<Entry>): (ns: seq<Bytes>)
    ensures |ns| == |d|
    ensures forall i :: 0 <= i < |d| ==> ns[i] == d[i].name
  {
    if d == [] then [] else [d[0].name] + EntryNames(d[1..])
  }

  /** Every name of both lists lies above `x`, so every emitted name does. */
  lemma MergeDiffAbove(names: seq<Bytes>, sums: map<Bytes, Bytes>,
                       dbNames: seq<Bytes>, dbSums: map<Bytes, Bytes>, x: Bytes)
    requires Covers(names, sums) && Covers(dbNames, dbSums)
    requires forall y :: y in names ==> Less(x, y)
    requires forall y :: y in dbNames ==> Less(x, y)
    ensures forall e :: e in MergeDiff(names, sums, dbNames, dbSums) ==> Less(x, e.name)
  {
    MergeDiffNames(names, sums, dbNames, dbSums);
  }

  /** At most one entry named `x`, followed by ascending entries above `x`, is ascending. */
  lemma AscendingAfter(head: seq<Entry>, x: Bytes, rest: seq<Entry>)
    requires |head| <= 1 && forall e :: e in head ==> e.name == x
    requires StrictlySorted(EntryNames(rest))
    requires forall e :: e in rest ==> Less(x, e.name)
    ensures StrictlySorted(EntryNames(head + rest))
  {
    var d := head + rest;
    var ns := EntryNames(d);
    forall i, j | 0 <= i < j < |ns|
      ensures Less(ns[i], ns[j])
    {
      if i < |head| {
        assert d[i] in head && d[j] in rest;
      } else {
        assert d[i] == rest[i - |head|] && d[j] == rest[j - |head|];
      }
    }
  }

  /** On strictly ascending lists the entries come out with strictly ascending names. */
  lemma {:induction false} MergeDiffAscending(names: seq<Bytes>, sums: map<Bytes, Bytes>,
                                              dbNames: seq<Bytes>, dbSums: map<Bytes, Bytes>)
    requires Covers(names, sums) && Covers(dbNames, dbSums)
    requires StrictlySorted(names) && StrictlySorted(dbNames)
    ensures StrictlySorted(EntryNames(MergeDiff(names, sums, dbNames, dbSums)))
    decreases |names| + |dbNames|
  {
    var d := MergeDiff(names, sums, dbNames, dbSums);
    if names == [] {
      assert EntryNames(d) == dbNames;
    } else if dbNames == [] {
      assert EntryNames(d) == names;
    } else {
      var name, dbName := names[0], dbNames[0];
      HeadBelowRest(names);
      HeadBelowRest(dbNames);
      var head: seq<Entry>, rest: seq<Entry>, x: Bytes;
      if name == dbName {
        rest := MergeDiff(names[1..], sums, dbNames[1..], dbSums);
        head := if sums[name] != dbSums[dbName] then [Entry(Updated, name)] else [];
        x := name;
        MergeDiffAscending(names[1..], sums, dbNames[1..], dbSums);
        MergeDiffAbove(names[1..], sums, dbNames[1..], dbSums, x);
      } else if Less(dbName, name) {
        rest := MergeDiff(names, sums, dbNames[1..], dbSums);
        head := [Entry(Deleted, dbName)];
        x := dbName;
        forall y | y in names
          ensures Less(x, y)
        {
          if y != name {
            LessTransitive(x, name, y);
          }
        }
        MergeDiffAscending(names, sums, dbNames[1..], dbSums);
        MergeDiffAbove(names, sums, dbNames[1..], dbSums, x);
      } else {
        Trichotomy(name, dbName);
        rest := MergeDiff(names[1..], sums, dbNames, dbSums);
        head := [Entry(Added, name)];
        x := name;
        forall y | y in dbNames
          ensures Less(x, y)
        {
          if y != dbName {
            LessTransitive(x, dbName, y);
          }
        }
        MergeDiffAscending(names[1..], sums, dbNames, dbSums);
        MergeDiffAbove(names[1..], sums, dbNames, dbSums, x);
      }
      assert d == head + rest;
      AscendingAfter(head, x, rest);
    }
  }

  /**
   * On strictly ascending lists the diff is empty iff both snapshots list
   * the same names with the same sums.
   */
  lemma MergeDiffEmpty(names: seq<Bytes>, sums: map<Bytes, Bytes>,
                       dbNames: seq<Bytes>, dbSums: map<Bytes, Bytes>)
    requires Covers(names, sums) && Covers(dbNames, dbSums)
    requires StrictlySorted(names) && StrictlySorted(dbNames)
    ensures MergeDiff(names, sums, dbNames, dbSums) == [] <==>
              (forall n :: n in names <==> n in dbNames) && forall n :: n in names ==> sums[n] == dbSums[n]
  {
    var d := MergeDiff(names, sums, dbNames, dbSums);
    if d == [] {
      forall n
        ensures (n in names <==> n in dbNames) && (n in names ==> sums[n] == dbSums[n])
      {
        MergeDiffClassifies(names, sums, dbNames, dbSums, n);
      }
    } else {
      var e := d[0];
      MergeDiffClassifies(names, sums, dbNames, dbSums, e.name);
      assert Entry(e.action, e.name) in d;
      if e.action == Added {
        assert e.name in names && e.name !in dbNames;
      } else if e.action == Deleted {
        assert e.name in dbNames && e.name !in names;
      } else {
        assert sums[e.name] != dbSums[e.name];
      }
    }
  }

  // ---------------------------------------------------------------------
  // Symmetry
  // ---------------------------------------------------------------------

  function SwapAction(a: Action): Action {
    match a
    case Added => Deleted
    case Deleted => Added
    case Updated => Updated
  }

  /** The entries seen from the other side: `A` and `D` exchanged. */
  function Swapped(d: seq<Entry>): (s: seq<Entry>)
    ensures |s| == |d|
    ensures forall i :: 0 <= i < |d| ==> s[i] == Entry(SwapAction(d[i].action), d[i].name)
  {
    if d == [] then [] else [Entry(SwapAction(d[0].action), d[0].name)] + Swapped(d[1..])
  }

  lemma SwappedAppend(a: seq<Entry>, b: seq<Entry>)
    ensures Swapped(a + b) == Swapped(a) + Swapped(b)
  {
  }

  /** Exchanging the two snapshots exchanges `A` and `D` and keeps the order, for any inputs. */
  lemma {:induction false} MergeDiffSymmetric(names: seq<Bytes>, sums: map<Bytes, Bytes>,
                                              dbNames: seq<Bytes>, dbSums: map<Bytes, Bytes>)
    requires Covers(names, sums) && Covers(dbNames, dbSums)
    ensures MergeDiff(dbNames, dbSums, names, sums) == Swapped(MergeDiff(names, sums, dbNames, dbSums))
    decreases |names| + |dbNames|
  {
    if names != [] && dbNames != [] {
      var name, dbName := names[0], dbNames[0];
      if name == dbName {
        MergeDiffSymmetric(names[1..], sums, dbNames[1..], dbSums);
        SwappedAppend(if sums[name] != dbSums[dbName] then [Entry(Updated, name)] else [],
                      MergeDiff(names[1..], sums, dbNames[1..], dbSums));
      } else if Less(dbName, name) {
        Trichotomy(name, dbName);
        MergeDiffSymmetric(names, sums, dbNames[1..], dbSums);
        SwappedAppend([Entry(Deleted, dbName)], MergeDiff(names, sums, dbNames[1..], dbSums));
      } else {
        Trichotomy(name, dbName);
        MergeDiffSymmetric(names[1..], sums, dbNames, dbSums);
        SwappedAppend([Entry(Added, name)], MergeDiff(names[1..], sums, dbNames, dbSums));
      }
    }
  }
}

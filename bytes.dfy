/**
 * Byte strings as the source handles them: Python's line iteration over a
 * binary stream, `bytes.split()` with no separator, and the ordering that
 * `sort()` and `<`/`>` use on `bytes`.
 */
module Bytes {

  newtype byte = x: int | 0 <= x < 256

  type Bytes = seq<byte>

  const TAB: byte := 9
  const LF: byte := 10

  /** The bytes `bytes.split()` and `bytes.strip()` treat as whitespace: space, \t, \n, \v, \f, \r. */
  predicate IsSpace(b: byte) {
    b == 32 || 9 <= b <= 13
  }

  predicate NoSpace(s: Bytes) {
    forall i :: 0 <= i < |s| ==> !IsSpace(s[i])
  }

  /** A byte string holding the code points of an ASCII string literal. */
  function Ascii(s: string): (b: Bytes)
    ensures |b| == |s|
  {
    seq(|s|, i requires 0 <= i < |s| => (s[i] as int % 256) as byte)
  }

  /** Decoding as a byte-per-character map (exact for ASCII text). */
  function Decode(b: Bytes): (s: string)
    ensures |s| == |b|
    ensures forall i :: 0 <= i < |b| ==> s[i] as int == b[i] as int
  {
    seq(|b|, i requires 0 <= i < |b| => b[i] as int as char)
  }

  // ---------------------------------------------------------------------
  // Fields: bytes.split() with no separator
  // ---------------------------------------------------------------------

  /** The leading run of non-whitespace bytes of `s`. */
  function Word(s: Bytes): (w: Bytes)
    ensures |w| <= |s| && w == s[..|w|]
    ensures NoSpace(w)
    ensures |w| < |s| ==> IsSpace(s[|w|])
  {
    if s == [] || IsSpace(s[0]) then [] else [s[0]] + Word(s[1..])
  }

  /** The maximal runs of non-whitespace bytes of `s`, in order. */
  function Fields(s: Bytes): (f: seq<Bytes>)
    ensures forall i :: 0 <= i < |f| ==> f[i] != [] && NoSpace(f[i])
    decreases |s|
  {
    if s == [] then []
    else if IsSpace(s[0]) then Fields(s[1..])
    else
      var w := Word(s);
      [w] + Fields(s[|w|..])
  }

  lemma {:induction false} WordOfPrefix(w: Bytes, rest: Bytes)
    requires NoSpace(w)
    requires rest == [] || IsSpace(rest[0])
    ensures Word(w + rest) == w
  {
    if w != [] {
      assert (w + rest)[1..] == w[1..] + rest;
      WordOfPrefix(w[1..], rest);
    } else if rest != [] {
      assert (w + rest)[0] == rest[0];
    }
  }

  /** A non-empty word followed by whitespace or the end is the first field. */
  lemma FieldsOfWord(w: Bytes, rest: Bytes)
    requires w != [] && NoSpace(w)
    requires rest == [] || IsSpace(rest[0])
    ensures Fields(w + rest) == [w] + Fields(rest)
  {
    WordOfPrefix(w, rest);
    assert (w + rest)[0] == w[0];
    assert (w + rest)[|w|..] == rest;
  }

  /** A record line `sum<TAB>name<LF>` splits into exactly its two words. */
  lemma FieldsOfRecord(sum: Bytes, name: Bytes)
    requires sum != [] && NoSpace(sum)
    requires name != [] && NoSpace(name)
    ensures Fields(sum + [TAB] + name + [LF]) == [sum, name]
  {
    var tail := name + [LF];
    RecordAssoc(sum, TAB, name, LF);
    FieldsOfWord(sum, [TAB] + tail);
    FieldsAfterSpace(TAB, tail);
    FieldsOfWord(name, [LF]);
    FieldsAfterSpace(LF, []);
    assert [LF] + [] == [LF];
  }

  /** Regrouping of a record's bytes; keeps the solver from searching for it. */
  lemma RecordAssoc(a: Bytes, b: byte, c: Bytes, d: byte)
    ensures a + [b] + c + [d] == a + ([b] + (c + [d]))
  {
  }

  /** Leading whitespace is not a field. */
  lemma FieldsAfterSpace(b: byte, s: Bytes)
    requires IsSpace(b)
    ensures Fields([b] + s) == Fields(s)
  {
    assert ([b] + s)[1..] == s;
  }

  // ---------------------------------------------------------------------
  // Lines: iteration over a binary stream
  // ---------------------------------------------------------------------

  /** The length of the first line of `s`, its LF included when there is one. */
  function LineLength(s: Bytes): (k: nat)
    requires s != []
    ensures 0 < k <= |s|
    ensures forall i :: 0 <= i < k - 1 ==> s[i] != LF
    ensures k < |s| ==> s[k - 1] == LF
  {
    if s[0] == LF || |s| == 1 then 1 else 1 + LineLength(s[1..])
  }

  function Concat(ls: seq<Bytes>): Bytes {
    if ls == [] then [] else ls[0] + Concat(ls[1..])
  }

  /**
   * The lines of `s` in order: each keeps its terminating LF, a last
   * unterminated piece is a line of its own, and the empty stream has none.
   */
  function Lines(s: Bytes): (ls: seq<Bytes>)
    ensures forall i :: 0 <= i < |ls| ==> ls[i] != []
    ensures Concat(ls) == s
    decreases |s|
  {
    if s == [] then []
    else
      var k := LineLength(s);
      assert s == s[..k] + s[k..];
      [s[..k]] + Lines(s[k..])
  }

  /** A line with a single LF, at its end, is split off whole. */
  lemma LinesOfLine(line: Bytes, rest: Bytes)
    requires line != [] && line[|line| - 1] == LF
    requires forall i :: 0 <= i < |line| - 1 ==> line[i] != LF
    ensures Lines(line + rest) == [line] + Lines(rest)
  {
    var s := line + rest;
    assert forall i :: 0 <= i < |line| ==> s[i] == line[i];
    var k := LineLength(s);
    assert k == |line|;
    assert s[..k] == line && s[k..] == rest;
  }

  lemma {:induction false} ConcatAppend(ls: seq<Bytes>, x: Bytes)
    ensures Concat(ls + [x]) == Concat(ls) + x
  {
    if ls == [] {
      assert ls + [x] == [x];
      assert Concat([x][1..]) == [];
    } else {
      assert (ls + [x])[1..] == ls[1..] + [x];
      ConcatAppend(ls[1..], x);
    }
  }

  /** A line holding exactly one LF, at its end. */
  predicate IsLine(line: Bytes) {
    && line != [] && line[|line| - 1] == LF
    && forall i :: 0 <= i < |line| - 1 ==> line[i] != LF
  }

  /** Every line holds LF only as its last byte. */
  lemma {:induction false} LinesInnerLF(s: Bytes)
    ensures forall i, j :: 0 <= i < |Lines(s)| && 0 <= j < |Lines(s)[i]| - 1 ==> Lines(s)[i][j] != LF
    decreases |s|
  {
    if s != [] {
      var k := LineLength(s);
      var rest := Lines(s[k..]);
      LinesInnerLF(s[k..]);
      assert Lines(s) == [s[..k]] + rest;
      assert forall i :: 1 <= i < |Lines(s)| ==> Lines(s)[i] == rest[i - 1];
    }
  }

  /** Lines written one after the other are read back as the same lines. */
  lemma {:induction false} LinesOfConcat(ls: seq<Bytes>)
    requires forall i :: 0 <= i < |ls| ==> IsLine(ls[i])
    ensures Lines(Concat(ls)) == ls
  {
    if ls != [] {
      LinesOfConcat(ls[1..]);
      LinesOfLine(ls[0], Concat(ls[1..]));
      assert ls == [ls[0]] + ls[1..];
    }
  }

  // ---------------------------------------------------------------------
  // Ordering of bytes objects
  // ---------------------------------------------------------------------

  /** `a <= b` on Python bytes: lexicographic, a proper prefix first. */
  predicate Below(a: Bytes, b: Bytes) {
    if a == [] then true
    else if b == [] then false
    else if a[0] != b[0] then a[0] < b[0]
    else Below(a[1..], b[1..])
  }

  /** `a < b` on Python bytes. */
  predicate Less(a: Bytes, b: Bytes) {
    Below(a, b) && a != b
  }

  lemma {:induction false} BelowTotal(a: Bytes, b: Bytes)
    ensures Below(a, b) || Below(b, a)
  {
    if a != [] && b != [] && a[0] == b[0] {
      BelowTotal(a[1..], b[1..]);
    }
  }

  lemma {:induction false} BelowAntisymmetric(a: Bytes, b: Bytes)
    requires Below(a, b) && Below(b, a)
    ensures a == b
  {
    if a != [] && b != [] {
      BelowAntisymmetric(a[1..], b[1..]);
      assert a == [a[0]] + a[1..] && b == [b[0]] + b[1..];
    }
  }

  lemma {:induction false} BelowTransitive(a: Bytes, b: Bytes, c: Bytes)
    requires Below(a, b) && Below(b, c)
    ensures Below(a, c)
  {
    if a != [] && b != [] && c != [] && a[0] == b[0] && b[0] == c[0] {
      BelowTransitive(a[1..], b[1..], c[1..]);
    }
  }

  lemma LessTransitive(a: Bytes, b: Bytes, c: Bytes)
    requires (Less(a, b) && Below(b, c)) || (Below(a, b) && Less(b, c))
    ensures Less(a, c)
  {
    BelowTransitive(a, b, c);
    if a == c {
      BelowAntisymmetric(a, b);
    }
  }

  /** Exactly one of `a < b`, `a == b`, `b < a` holds. */
  lemma Trichotomy(a: Bytes, b: Bytes)
    ensures Less(a, b) || a == b || Less(b, a)
    ensures !(Less(a, b) && Less(b, a))
  {
    BelowTotal(a, b);
    if Less(a, b) && Less(b, a) {
      BelowAntisymmetric(a, b);
    }
  }

  predicate Sorted(s: seq<Bytes>) {
    forall i, j :: 0 <= i < j < |s| ==> Below(s[i], s[j])
  }

  /** Sorted without repeats: the form of a snapshot's name list. */
  predicate StrictlySorted(s: seq<Bytes>) {
    forall i, j :: 0 <= i < j < |s| ==> Less(s[i], s[j])
  }

  /** `x` put into `s` after every leading element not above it. */
  function Insert(x: Bytes, s: seq<Bytes>): (r: seq<Bytes>)
    ensures multiset(r) == multiset(s) + multiset{x}
  {
    if s == [] || Below(x, s[0]) then [x] + s
    else
      assert s == [s[0]] + s[1..];
      [s[0]] + Insert(x, s[1..])
  }

  lemma {:induction false} InsertSorted(x: Bytes, s: seq<Bytes>)
    requires Sorted(s)
    ensures Sorted(Insert(x, s))
  {
    if s == [] {
    } else if Below(x, s[0]) {
      forall j | 0 < j < |s| ensures Below(x, s[j]) {
        BelowTransitive(x, s[0], s[j]);
      }
    } else {
      BelowTotal(x, s[0]);
      InsertSorted(x, s[1..]);
      var t := Insert(x, s[1..]);
      assert s == [s[0]] + s[1..];
      forall j | 0 <= j < |t| ensures Below(s[0], t[j]) {
        assert t[j] in multiset(t);
        assert t[j] == x || t[j] in multiset(s[1..]);
      }
    }
  }

  /** What `list.sort()` leaves: the same names, ascending. */
  function Sort(s: seq<Bytes>): (r: seq<Bytes>)
    ensures Sorted(r)
    ensures multiset(r) == multiset(s)
  {
    if s == [] then []
    else
      assert s == [s[0]] + s[1..];
      InsertSorted(s[0], Sort(s[1..]));
      Insert(s[0], Sort(s[1..]))
  }
}

/** `splitCSV` (csv.go:70-86): one line cut into fields at a separator byte, with double
    quotes toggling a quoted stretch in which the separator is ordinary text. This follows
    section 2 of RFC 4180 only loosely: quotes are consumed, a doubled quote is not an
    escaped quote, and a field never spans two lines. */
module Fields {
  import opened Text

  const Quote: Byte := '"'

  /** Separator candidates, in the order PeekCSV and ReadCSV try them. */
  const SepSet: Str := ",\t|;:"

  /** The rune 0: no separator (PeekCSV: a fixed-width file; ReadCSV: infer one). */
  const NoSep: Byte := '\0'

  /** Bytes the splitter discards: above '~', and below ' ' except tab. */
  predicate Dropped(c: Byte) {
    c > '~' || (c != '\t' && c < ' ')
  }

  /** Bytes that survive into a field: printable ASCII and tab, quotes excepted. */
  predicate Clean(s: Str) {
    forall k :: 0 <= k < |s| ==> !Dropped(s[k]) && s[k] != Quote
  }

  /** A separator that can cut a line: one the splitter neither drops nor reads as a quote. */
  predicate Cuts(sep: Byte) {
    !Dropped(sep) && sep != Quote
  }

  /** The splitter's variables: the finished `fields`, the current `field`, and `encl`
      (inside quotes). */
  datatype Scan = Scan(fields: seq<Str>, field: Str, encl: bool)

  const Start := Scan([], [], false)

  /** One turn of the loop over the bytes of the line. */
  function Step(st: Scan, c: Byte, sep: Byte): Scan {
    if Dropped(c) then st
    else if c == Quote then st.(encl := !st.encl)
    else if !st.encl && c == sep then Scan(st.fields + [st.field], [], st.encl)
    else st.(field := st.field + [c])
  }

  /** The loop run over all of `s`, from state `st`. */
  function ScanFrom(st: Scan, s: Str, sep: Byte): Scan
    decreases |s|
  {
    if s == [] then st else Step(ScanFrom(st, s[..|s| - 1], sep), s[|s| - 1], sep)
  }

  /** The fields `splitCSV(s, sep)` returns. */
  function Split(s: Str, sep: Byte): seq<Str> {
    var st := ScanFrom(Start, s, sep);
    st.fields + [st.field]
  }

  /** `splitCSV` itself: the byte loop with its two variables. */
  method SplitCSV(csv: Str, sep: Byte) returns (fields: seq<Str>)
    ensures fields == Split(csv, sep)
  {
    var field: Str, encl := [], false;
    fields := [];
    for i := 0 to |csv|
      invariant ScanFrom(Start, csv[..i], sep) == Scan(fields, field, encl)
    {
      var r := csv[i];
      assert csv[..i + 1][..i] == csv[..i];
      if Dropped(r) {
        // dropped
      } else if r == Quote {
        encl := !encl;
      } else if !encl && r == sep {
        fields := fields + [field];
        field := [];
      } else {
        field := field + [r];
      }
    }
    assert csv[..|csv|] == csv;
    fields := fields + [field];
  }

  // ---------------------------------------------------------------------------
  // Field count

  /** `len(splitCSV(ln, r))`. */
  function Count(ln: Str, r: Byte): nat {
    |Split(ln, r)|
  }

  /** Number of quote bytes in `s`. */
  function Quotes(s: Str): nat
    decreases |s|
  {
    if s == [] then 0 else Quotes(s[..|s| - 1]) + (if s[|s| - 1] == Quote then 1 else 0)
  }

  /** Number of positions holding `sep` with an even number of quotes before them. */
  function UnquotedSeps(s: Str, sep: Byte): nat
    decreases |s|
  {
    if s == [] then 0
    else
      var u := s[..|s| - 1];
      UnquotedSeps(u, sep) + (if s[|s| - 1] == sep && Cuts(sep) && Quotes(u) % 2 == 0 then 1 else 0)
  }

  lemma {:induction false} ScanCounts(s: Str, sep: Byte)
    ensures |ScanFrom(Start, s, sep).fields| == UnquotedSeps(s, sep)
    ensures ScanFrom(Start, s, sep).encl <==> Quotes(s) % 2 == 1
    decreases |s|
  {
    if s != [] {
      ScanCounts(s[..|s| - 1], sep);
    }
  }

  /** A line always yields one field more than it has separators outside quotes. */
  lemma SplitCount(s: Str, sep: Byte)
    ensures |Split(s, sep)| == 1 + UnquotedSeps(s, sep)
  {
    ScanCounts(s, sep);
  }

  // ---------------------------------------------------------------------------
  // What a field can contain

  lemma {:induction false} ScanClean(s: Str, sep: Byte)
    ensures var st := ScanFrom(Start, s, sep);
      Clean(st.field) && forall k :: 0 <= k < |st.fields| ==> Clean(st.fields[k])
    decreases |s|
  {
    if s != [] {
      ScanClean(s[..|s| - 1], sep);
    }
  }

  /** No field holds a quote or a byte the splitter drops. */
  lemma SplitClean(s: Str, sep: Byte)
    ensures forall k :: 0 <= k < |Split(s, sep)| ==> Clean(Split(s, sep)[k])
  {
    ScanClean(s, sep);
  }

  // ---------------------------------------------------------------------------
  // Round trips

  /** The fields put back together with `sep` between them (`strings.Join`). */
  function Join(fs: seq<Str>, sep: Byte): Str
    requires |fs| >= 1
    decreases |fs|
  {
    if |fs| == 1 then fs[0] else Join(fs[..|fs| - 1], sep) + [sep] + fs[|fs| - 1]
  }

  lemma JoinExtendLast(fs: seq<Str>, x: Str, sep: Byte)
    requires |fs| >= 1
    ensures Join(fs[..|fs| - 1] + [fs[|fs| - 1] + x], sep) == Join(fs, sep) + x
  {
    var gs := fs[..|fs| - 1] + [fs[|fs| - 1] + x];
    if |fs| > 1 {
      assert gs[..|gs| - 1] == fs[..|fs| - 1];
    }
  }

  lemma {:induction false} ScanJoin(s: Str, sep: Byte)
    requires Clean(s)
    ensures var st := ScanFrom(Start, s, sep);
      !st.encl && Join(st.fields + [st.field], sep) == s
    decreases |s|
  {
    if s != [] {
      var u, c := s[..|s| - 1], s[|s| - 1];
      assert Clean(u) && !Dropped(c) && c != Quote;
      ScanJoin(u, sep);
      var st := ScanFrom(Start, u, sep);
      var fs := st.fields + [st.field];
      assert s == u + [c];
      if c == sep {
        assert Join(fs + [[]], sep) == Join(fs, sep) + [c] by { JoinAppendEmpty(fs, sep); }
      } else {
        assert Join(st.fields + [st.field + [c]], sep) == Join(fs, sep) + [c] by {
          JoinExtendLast(fs, [c], sep);
          assert fs[..|fs| - 1] == st.fields;
        }
      }
    }
  }

  lemma JoinAppendEmpty(fs: seq<Str>, sep: Byte)
    requires |fs| >= 1
    ensures Join(fs + [[]], sep) == Join(fs, sep) + [sep]
  {
    var gs := fs + [[]];
    assert gs[..|gs| - 1] == fs;
  }

  /** A quote-free line of printable bytes is the join of its fields. */
  lemma SplitJoin(s: Str, sep: Byte)
    requires Clean(s)
    ensures Join(Split(s, sep), sep) == s
  {
    ScanJoin(s, sep);
  }

  lemma {:induction false} ScanFromCat(st: Scan, a: Str, b: Str, sep: Byte)
    ensures ScanFrom(st, a + b, sep) == ScanFrom(ScanFrom(st, a, sep), b, sep)
    decreases |b|
  {
    if b == [] {
      assert a + b == a;
    } else {
      assert (a + b)[..|a + b| - 1] == a + b[..|b| - 1];
      ScanFromCat(st, a, b[..|b| - 1], sep);
    }
  }

  lemma {:induction false} ScanPlain(st: Scan, t: Str, sep: Byte)
    requires !st.encl && Clean(t) && sep !in t
    ensures ScanFrom(st, t, sep) == st.(field := st.field + t)
    decreases |t|
  {
    if t != [] {
      ScanPlain(st, t[..|t| - 1], sep);
      assert st.field + t[..|t| - 1] + [t[|t| - 1]] == st.field + t;
    }
  }

  lemma {:induction false} ScanOfJoin(fs: seq<Str>, sep: Byte)
    requires |fs| >= 1 && Cuts(sep)
    requires forall k :: 0 <= k < |fs| ==> Clean(fs[k]) && sep !in fs[k]
    ensures ScanFrom(Start, Join(fs, sep), sep) == Scan(fs[..|fs| - 1], fs[|fs| - 1], false)
    decreases |fs|
  {
    if |fs| == 1 {
      ScanPlain(Start, fs[0], sep);
    } else {
      var init := fs[..|fs| - 1];
      ScanOfJoin(init, sep);
      ScanFromCat(Start, Join(init, sep), [sep], sep);
      ScanFromCat(Start, Join(init, sep) + [sep], fs[|fs| - 1], sep);
      assert init[..|init| - 1] + [init[|init| - 1]] == init;
      ScanPlain(Scan(init, [], false), fs[|fs| - 1], sep);
    }
  }

  /** Fields free of quotes, dropped bytes and the separator come back unchanged
      from splitting their join. */
  lemma JoinSplit(fs: seq<Str>, sep: Byte)
    requires |fs| >= 1 && Cuts(sep)
    requires forall k :: 0 <= k < |fs| ==> Clean(fs[k]) && sep !in fs[k]
    ensures Split(Join(fs, sep), sep) == fs
  {
    var line := Join(fs, sep);
    assert ScanFrom(Start, line, sep) == Scan(fs[..|fs| - 1], fs[|fs| - 1], false) by {
      ScanOfJoin(fs, sep);
    }
    SplitOfScan(line, sep, fs[..|fs| - 1], fs[|fs| - 1]);
    assert fs[..|fs| - 1] + [fs[|fs| - 1]] == fs;
  }

  lemma SplitOfScan(s: Str, sep: Byte, fields: seq<Str>, field: Str)
    requires ScanFrom(Start, s, sep) == Scan(fields, field, false)
    ensures Split(s, sep) == fields + [field]
  {
  }
}

/** The line loop of `ReadCSV` (csv.go:254-325). The first kept line fixes the separator
    (inferred when the caller passes none), the field count and the column map, and is
    either a heading or, with an adopted caller map, the first data line. Every later kept
    line with that field count yields a record of its selected, trimmed, non-empty fields,
    unless it repeats the heading; lines with another count are misaligned. */
module Csv {
  import opened Text
  import opened Fields
  import opened Common
  import opened Columns

  /** What the first kept line fixes: the separator, the field count of a well-formed
      line, the column map, and the first line read as data (0-based). */
  datatype Setup = Setup(sep: Byte, wid: nat, vcols: map<Str, int>, start: nat)

  /** A column map that names at least one field, every one within the field count. */
  predicate Fitting(st: Setup) {
    st.vcols != map[] && forall c :: c in st.vcols ==> 1 <= st.vcols[c] <= st.wid
  }

  /** The separator used: the caller's, or the one inferred from the first kept line. */
  function Separator(ln: Str, sep: Byte): Byte {
    if sep == NoSep then AutoSep(ln) else sep
  }

  /** The outcome of the first kept line (csv.go:259-301). */
  function Settle(lines: seq<Str>, cols: CallerMap, sep: Byte, comment: Str, isNum: Str -> bool): (r: Result<Setup>)
    requires FirstKept(lines, comment) < |lines|
    ensures r.Ok? ==> Fitting(r.value)
    ensures r.Fail? ==> r.error in {NoHeading, MissingColumns, IncompatibleMap, AmbiguousMap}
    ensures r.Ok? ==> var f := FirstKept(lines, comment);
      r.value.sep == Separator(lines[f], sep) && r.value.wid == |Split(lines[f], r.value.sep)| &&
      (r.value.start == f || r.value.start == f + 1)
  {
    var f := FirstKept(lines, comment);
    var sl := Split(lines[f], Separator(lines[f], sep));
    ResolvePositions(sl, cols, isNum);
    Settled(Resolve(sl, cols, isNum), Separator(lines[f], sep), |sl|, f)
  }

  /** A heading is not data, so data starts after it; an adopted caller map makes the
      first kept line `f` itself the first data line. */
  function Settled(r: Resolution, sep: Byte, wid: nat, f: nat): Result<Setup> {
    match r
    case Refused(e) => Fail(e)
    case Heading(v) => Ok(Setup(sep, wid, v, f + 1))
    case Adopted(v) => Ok(Setup(sep, wid, v, f))
  }

  /** The first kept line, split at the separator the loop holds, settles as `Settle` has it. */
  lemma FirstLineSettles(lines: seq<Str>, cols: CallerMap, sep: Byte, comment: Str, isNum: Str -> bool,
                         fsep: Byte, sl: seq<Str>, r: Resolution)
    requires FirstKept(lines, comment) < |lines|
    requires fsep == Separator(lines[FirstKept(lines, comment)], sep)
    requires sl == Split(lines[FirstKept(lines, comment)], fsep) && r == Resolve(sl, cols, isNum)
    ensures Settle(lines, cols, sep, comment, isNum) == Settled(r, fsep, |sl|, FirstKept(lines, comment))
  {
  }

  // ---------------------------------------------------------------------------
  // The record of one line (csv.go:305-311)

  /** The trimmed field column `c` selects. */
  function Pick(sl: seq<Str>, vcols: map<Str, int>, c: Str): Str
    requires c in vcols && 1 <= vcols[c] <= |sl|
  {
    Trim(sl[vcols[c] - 1])
  }

  predicate Within(sl: seq<Str>, vcols: map<Str, int>) {
    forall c :: c in vcols ==> 1 <= vcols[c] <= |sl|
  }

  /** The non-empty picks for the columns in `keys`. */
  function RecordOver(sl: seq<Str>, vcols: map<Str, int>, keys: set<Str>): map<Str, Str>
    requires keys <= vcols.Keys && Within(sl, vcols)
  {
    map c | c in keys && Pick(sl, vcols, c) != [] :: Pick(sl, vcols, c)
  }

  /** The record map of a line of the right field count. */
  function RecordOf(sl: seq<Str>, vcols: map<Str, int>): map<Str, Str>
    requires Within(sl, vcols)
  {
    RecordOver(sl, vcols, vcols.Keys)
  }

  /** The line repeats the heading: every column's field is its own name. */
  predicate Repeats(sl: seq<Str>, vcols: map<Str, int>)
    requires Within(sl, vcols)
  {
    forall c :: c in vcols ==> Pick(sl, vcols, c) == c
  }

  lemma RecordStep(sl: seq<Str>, vcols: map<Str, int>, keys: set<Str>, c: Str)
    requires keys <= vcols.Keys && c in vcols && c !in keys && Within(sl, vcols)
    ensures var f := Pick(sl, vcols, c);
      RecordOver(sl, vcols, keys + {c}) ==
        if f != [] then RecordOver(sl, vcols, keys)[c := f] else RecordOver(sl, vcols, keys)
  {
    var f := Pick(sl, vcols, c);
    var m, m' := RecordOver(sl, vcols, keys), RecordOver(sl, vcols, keys + {c});
    if f != [] {
      assert m'.Keys == m.Keys + {c};
    } else {
      assert m'.Keys == m.Keys;
    }
  }

  /** The loop over the columns that fills the record map and tests for a repeated
      heading. */
  method BuildRecord(sl: seq<Str>, vcols: map<Str, int>) returns (m: map<Str, Str>, heading: bool)
    requires Within(sl, vcols)
    ensures m == RecordOf(sl, vcols) && (heading <==> Repeats(sl, vcols))
  {
    m, heading := map[], true;
    var rest := vcols.Keys;
    while rest != {}
      invariant rest <= vcols.Keys
      invariant m == RecordOver(sl, vcols, vcols.Keys - rest)
      invariant heading <==> forall c :: c in vcols && c !in rest ==> Pick(sl, vcols, c) == c
      decreases |rest|
    {
      var c :| c in rest;
      var i := vcols[c];
      var f := Trim(sl[i - 1]);
      RecordStep(sl, vcols, vcols.Keys - rest, c);
      assert vcols.Keys - rest + {c} == vcols.Keys - (rest - {c});
      if |f| > 0 {
        m := m[c := f];
      }
      heading := heading && f == c;
      rest := rest - {c};
    }
  }

  /** Every value of a record map is the non-empty, trimmed field of its column, and every
      key is a column. */
  lemma RecordFields(sl: seq<Str>, vcols: map<Str, int>)
    requires Within(sl, vcols)
    ensures RecordOf(sl, vcols).Keys <= vcols.Keys
    ensures forall c :: c in RecordOf(sl, vcols) ==>
      var f := RecordOf(sl, vcols)[c];
      f == Trim(sl[vcols[c] - 1]) && f != [] && f[0] != ' ' && f[|f| - 1] != ' '
    ensures forall c :: c in vcols && !IsBlank(sl[vcols[c] - 1]) ==> c in RecordOf(sl, vcols)
  {
    forall c | c in vcols {
      TrimShape(sl[vcols[c] - 1]);
    }
  }

  // ---------------------------------------------------------------------------
  // The stream ReadCSV delivers

  /** The fields of every line, split at `sep`. The stream below reads lines through this
      table, so that a line is split only where the decoder splits it. */
  function Table(lines: seq<Str>, sep: Byte): (t: seq<seq<Str>>)
    ensures |t| == |lines|
    ensures forall k {:trigger Split(lines[k], sep)} :: 0 <= k < |lines| ==> t[k] == Split(lines[k], sep)
    decreases |lines|
  {
    if lines == [] then []
    else
      var init := lines[..|lines| - 1];
      var t := Table(init, sep) + [Split(lines[|lines| - 1], sep)];
      assert forall k :: 0 <= k < |init| ==> init[k] == lines[k];
      t
  }

  /** Line `k` has the field count of the first kept line. */
  predicate Fits(rows: seq<seq<Str>>, st: Setup, k: nat)
    requires k < |rows|
  {
    |rows[k]| == st.wid
  }

  /** Kept data lines among the first `n` with another field count. */
  function MisCount(lines: seq<Str>, rows: seq<seq<Str>>, comment: Str, st: Setup, n: nat): nat
    requires n <= |lines| == |rows|
  {
    if n == 0 then 0
    else
      MisCount(lines, rows, comment, st, n - 1) +
      (if st.start <= n - 1 && Kept(lines[n - 1], comment) && !Fits(rows, st, n - 1) then 1 else 0)
  }

  /** Line `k` (0-based) is misaligned and takes the share of misaligned lines past the
      limit: more than 200 lines read and more than one in fifty of them misaligned. */
  predicate Breach(lines: seq<Str>, rows: seq<seq<Str>>, comment: Str, st: Setup, k: nat)
    requires k < |lines| == |rows|
  {
    st.start <= k && Kept(lines[k], comment) && !Fits(rows, st, k) &&
    k + 1 > 200 && 50 * MisCount(lines, rows, comment, st, k + 1) > k + 1
  }

  /** Some line breaches the misalignment limit. */
  predicate Overrun(lines: seq<Str>, rows: seq<seq<Str>>, comment: Str, st: Setup)
    requires |lines| == |rows|
  {
    exists k :: 0 <= k < |lines| && Breach(lines, rows, comment, st, k)
  }

  function FirstBreachFrom(lines: seq<Str>, rows: seq<seq<Str>>, comment: Str, st: Setup, i: nat): (b: nat)
    requires i <= |lines| == |rows|
    ensures i <= b <= |lines|
    ensures b < |lines| ==> Breach(lines, rows, comment, st, b)
    ensures forall k :: i <= k < b ==> !Breach(lines, rows, comment, st, k)
    decreases |lines| - i
  {
    if i == |lines| || Breach(lines, rows, comment, st, i) then i else FirstBreachFrom(lines, rows, comment, st, i + 1)
  }

  /** The line at which the decoder gives up (`|lines|` when it never does). */
  function FirstBreach(lines: seq<Str>, rows: seq<seq<Str>>, comment: Str, st: Setup): (b: nat)
    requires |lines| == |rows|
    ensures b <= |lines|
    ensures b < |lines| ==> Breach(lines, rows, comment, st, b)
    ensures forall k :: 0 <= k < b ==> !Breach(lines, rows, comment, st, k)
  {
    FirstBreachFrom(lines, rows, comment, st, 0)
  }

  /** Line `k` (0-based) is sent: a kept data line of the right field count that does not
      repeat the heading and has a non-empty selected field. */
  predicate Yields(lines: seq<Str>, rows: seq<seq<Str>>, comment: Str, st: Setup, k: nat)
    requires k < |lines| == |rows| && Fitting(st)
  {
    st.start <= k && Kept(lines[k], comment) && Fits(rows, st, k) &&
    !Repeats(rows[k], st.vcols) && RecordOf(rows[k], st.vcols) != map[]
  }

  /** The record of line `k`. */
  function RecordAt(rows: seq<seq<Str>>, st: Setup, k: nat): Record
    requires k < |rows| && Fitting(st) && Fits(rows, st, k)
  {
    Record(RecordOf(rows[k], st.vcols), k + 1)
  }

  /** The records of the first `n` lines. */
  function Records(lines: seq<Str>, rows: seq<seq<Str>>, comment: Str, st: Setup, n: nat): seq<Record>
    requires n <= |lines| == |rows| && Fitting(st)
  {
    if n == 0 then []
    else
      Records(lines, rows, comment, st, n - 1) +
      (if Yields(lines, rows, comment, st, n - 1) then [RecordAt(rows, st, n - 1)] else [])
  }

  /** What the decoder sends once the columns are settled to `st`: the records of the lines
      before the first breach, and the misalignment error with its count if there is one. */
  function Outcome(lines: seq<Str>, rows: seq<seq<Str>>, comment: Str, st: Setup): Stream
    requires |lines| == |rows| && Fitting(st)
  {
    var b := FirstBreach(lines, rows, comment, st);
    Stream(Records(lines, rows, comment, st, b),
           if b < |lines| then Some(Misaligned(MisCount(lines, rows, comment, st, b + 1))) else None)
  }

  /** What ReadCSV sends for a file: nothing without a kept line; the column error of the
      first kept line; otherwise the outcome of the lines under the settled columns. */
  function CsvSpec(lines: seq<Str>, cols: CallerMap, sep: Byte, comment: Str, isNum: Str -> bool): Stream {
    if FirstKept(lines, comment) == |lines| then Stream([], None)
    else
      match Settle(lines, cols, sep, comment, isNum)
      case Fail(e) => Stream([], Some(e))
      case Ok(st) => Outcome(lines, Table(lines, st.sep), comment, st)
  }

  // ---------------------------------------------------------------------------
  // The decoder loop

  /** The decoder's state after the lines before `n`, once the first kept line has been
      read: misaligned count, records sent, and no breach so far. */
  ghost predicate Running(lines: seq<Str>, rows: seq<seq<Str>>, comment: Str, st: Setup, algn: nat,
                          out: seq<Record>, n: nat)
    requires n <= |lines| == |rows|
  {
    Fitting(st) &&
    algn == MisCount(lines, rows, comment, st, n) &&
    out == Records(lines, rows, comment, st, n) &&
    forall k :: 0 <= k < n ==> !Breach(lines, rows, comment, st, k)
  }

  /** A line that is not read as data (blank, comment, the heading or before it) changes
      nothing. */
  lemma StepSkipped(lines: seq<Str>, rows: seq<seq<Str>>, comment: Str, st: Setup, algn: nat, out: seq<Record>, n: nat)
    requires n < |lines| == |rows| && Running(lines, rows, comment, st, algn, out, n)
    requires !Kept(lines[n], comment) || n < st.start
    ensures Running(lines, rows, comment, st, algn, out, n + 1)
  {
  }

  /** A data line with another field count is counted; past the limit it is the first
      breach. */
  lemma StepMisaligned(lines: seq<Str>, rows: seq<seq<Str>>, comment: Str, st: Setup, algn: nat, out: seq<Record>, n: nat)
    requires n < |lines| == |rows| && Running(lines, rows, comment, st, algn, out, n)
    requires st.start <= n && Kept(lines[n], comment) && !Fits(rows, st, n)
    ensures MisCount(lines, rows, comment, st, n + 1) == algn + 1
    ensures n + 1 > 200 && 50 * (algn + 1) > n + 1 ==> FirstBreach(lines, rows, comment, st) == n
    ensures !(n + 1 > 200 && 50 * (algn + 1) > n + 1) ==> Running(lines, rows, comment, st, algn + 1, out, n + 1)
  {
    if n + 1 > 200 && 50 * (algn + 1) > n + 1 {
      assert Breach(lines, rows, comment, st, n);
    }
  }

  /** A data line of the right field count sends its record map, unless it repeats the
      heading or is empty. */
  lemma StepAligned(lines: seq<Str>, rows: seq<seq<Str>>, comment: Str, st: Setup, algn: nat, out: seq<Record>, n: nat,
                    m: map<Str, Str>, heading: bool)
    requires n < |lines| == |rows| && Running(lines, rows, comment, st, algn, out, n)
    requires st.start <= n && Kept(lines[n], comment) && Fits(rows, st, n)
    requires m == RecordOf(rows[n], st.vcols)
    requires heading <==> Repeats(rows[n], st.vcols)
    ensures Running(lines, rows, comment, st, algn, out + (if !heading && m != map[] then [Record(m, n + 1)] else []), n + 1)
  {
  }

  /** Before the first kept line nothing is counted or emitted. */
  lemma {:induction false} FirstKeptBlank(lines: seq<Str>, rows: seq<seq<Str>>, comment: Str, st: Setup, n: nat)
    requires n <= |lines| == |rows| && Fitting(st)
    requires forall k :: 0 <= k < n ==> !Kept(lines[k], comment)
    ensures Running(lines, rows, comment, st, 0, [], n)
  {
    if n > 0 {
      FirstKeptBlank(lines, rows, comment, st, n - 1);
    }
  }

  /** The decoder state once the first kept line `f` has settled: nothing so far, and the
      heading, if it is one, skipped. */
  lemma FirstLineRunning(lines: seq<Str>, rows: seq<seq<Str>>, comment: Str, st: Setup, f: nat)
    requires f < |lines| == |rows| && FirstKept(lines, comment) == f && Fitting(st)
    requires st.start == f || st.start == f + 1
    ensures Running(lines, rows, comment, st, 0, [], st.start)
  {
    FirstKeptBlank(lines, rows, comment, st, f);
    if st.start == f + 1 {
      StepSkipped(lines, rows, comment, st, 0, [], f);
    }
  }

  /** Without a kept line nothing is sent. */
  lemma SpecEmpty(lines: seq<Str>, cols: CallerMap, sep: Byte, comment: Str, isNum: Str -> bool)
    requires FirstKept(lines, comment) == |lines|
    ensures CsvSpec(lines, cols, sep, comment, isNum) == Stream([], None)
  {
  }

  /** A column error on the first kept line is all that is sent. */
  lemma SpecRefused(lines: seq<Str>, cols: CallerMap, sep: Byte, comment: Str, isNum: Str -> bool, e: Error)
    requires FirstKept(lines, comment) < |lines| && Settle(lines, cols, sep, comment, isNum) == Fail(e)
    ensures CsvSpec(lines, cols, sep, comment, isNum) == Stream([], Some(e))
  {
  }

  /** The decoder state at the end of the lines, or at the first breach, is the stream. */
  lemma SpecSettled(lines: seq<Str>, cols: CallerMap, sep: Byte, comment: Str, isNum: Str -> bool,
                    st: Setup, rows: seq<seq<Str>>, out: seq<Record>, err: Option<Error>)
    requires FirstKept(lines, comment) < |lines| && Settle(lines, cols, sep, comment, isNum) == Ok(st)
    requires rows == Table(lines, st.sep)
    requires var b := FirstBreach(lines, rows, comment, st);
      out == Records(lines, rows, comment, st, b) &&
      err == if b < |lines| then Some(Misaligned(MisCount(lines, rows, comment, st, b + 1))) else None
    ensures CsvSpec(lines, cols, sep, comment, isNum) == Stream(out, err)
  {
  }

  /** The first kept line settles the columns to `st`. The fact is stated for every
      separator equal to `sep`, so that `Settle` is only expanded where a proof names it. */
  ghost predicate SettlesTo(lines: seq<Str>, cols: CallerMap, sep: Byte, comment: Str, isNum: Str -> bool, st: Setup)
  {
    forall s' {:trigger Settle(lines, cols, s', comment, isNum)} ::
      s' == sep && FirstKept(lines, comment) < |lines| ==> Settle(lines, cols, s', comment, isNum) == Ok(st)
  }

  /** The decoder once the first kept line has settled the columns, after `n` lines: the
      separator, field count and column map are those of `st`, `rows` is the table of
      fields at that separator, and the decoder state is that of the lines read. */
  ghost predicate Decoding(lines: seq<Str>, cols: CallerMap, sep: Byte, comment: Str, isNum: Str -> bool,
                           fsep: Byte, wid: nat, vcols: map<Str, int>, algn: nat, out: seq<Record>,
                           st: Setup, rows: seq<seq<Str>>, n: nat)
  {
    var f := FirstKept(lines, comment);
    f < |lines| && f <= n <= |lines| && SettlesTo(lines, cols, sep, comment, isNum, st) &&
    st.sep == fsep && st.wid == wid && st.vcols == vcols && st.start <= f + 1 &&
    rows == Table(lines, fsep) && Running(lines, rows, comment, st, algn, out, n)
  }

  /** The loop invariant of ReadCSV after `line` lines: up to the first kept line nothing
      is settled or sent; after it the decoder is `Decoding`. */
  ghost predicate Reading(lines: seq<Str>, cols: CallerMap, sep: Byte, comment: Str, isNum: Str -> bool,
                          fsep: Byte, wid: nat, vcols: map<Str, int>, algn: nat, out: seq<Record>,
                          st: Setup, rows: seq<seq<Str>>, line: nat)
  {
    var f := FirstKept(lines, comment);
    line <= |lines| &&
    (line <= f ==> fsep == sep && vcols == map[] && algn == 0 && out == []) &&
    (line > f ==> Decoding(lines, cols, sep, comment, isNum, fsep, wid, vcols, algn, out, st, rows, line))
  }

  /** A blank or comment line changes nothing. */
  lemma SkipLine(lines: seq<Str>, cols: CallerMap, sep: Byte, comment: Str, isNum: Str -> bool,
                 fsep: Byte, wid: nat, vcols: map<Str, int>, algn: nat, out: seq<Record>,
                 st: Setup, rows: seq<seq<Str>>, line: nat)
    requires line < |lines| && !Kept(lines[line], comment)
    requires Reading(lines, cols, sep, comment, isNum, fsep, wid, vcols, algn, out, st, rows, line)
    ensures Reading(lines, cols, sep, comment, isNum, fsep, wid, vcols, algn, out, st, rows, line + 1)
  {
    if line > FirstKept(lines, comment) {
      StepSkipped(lines, rows, comment, st, algn, out, line);
    }
  }

  /** A kept line is the first kept line exactly when no column map is settled yet; any
      later one is read by the settled decoder. */
  lemma KeptLine(lines: seq<Str>, cols: CallerMap, sep: Byte, comment: Str, isNum: Str -> bool,
                 fsep: Byte, wid: nat, vcols: map<Str, int>, algn: nat, out: seq<Record>,
                 st: Setup, rows: seq<seq<Str>>, line: nat)
    requires line < |lines| && Kept(lines[line], comment)
    requires Reading(lines, cols, sep, comment, isNum, fsep, wid, vcols, algn, out, st, rows, line)
    ensures line >= FirstKept(lines, comment)
    ensures |vcols| == 0 <==> line == FirstKept(lines, comment)
    ensures line == FirstKept(lines, comment) ==> algn == 0 && out == []
    ensures line > FirstKept(lines, comment) ==>
      st.start <= line && Decoding(lines, cols, sep, comment, isNum, fsep, wid, vcols, algn, out, st, rows, line)
  {
  }

  /** The decoder reaches the end of the lines: what it has sent is the stream. */
  lemma ReadingDone(lines: seq<Str>, cols: CallerMap, sep: Byte, comment: Str, isNum: Str -> bool,
                    fsep: Byte, wid: nat, vcols: map<Str, int>, algn: nat, out: seq<Record>,
                    st: Setup, rows: seq<seq<Str>>)
    requires Reading(lines, cols, sep, comment, isNum, fsep, wid, vcols, algn, out, st, rows, |lines|)
    ensures CsvSpec(lines, cols, sep, comment, isNum) == Stream(out, None)
  {
    if FirstKept(lines, comment) < |lines| {
      assert FirstBreach(lines, rows, comment, st) == |lines|;
      SpecSettled(lines, cols, sep, comment, isNum, st, rows, out, None);
    } else {
      SpecEmpty(lines, cols, sep, comment, isNum);
    }
  }

  /** The `sep == 0` and `len(vcols) == 0` cases of the switch (csv.go:259-301), on the
      first kept line, which is `lines[line - 1]`: infer the separator when the caller
      gave none (the `continue` at csv.go:265 reads the same line again, now with a
      separator), split the line, settle the columns, and ready the decoder state for
      the lines that follow. */
  method FirstLine(lines: seq<Str>, cols: CallerMap, sep: Byte, comment: Str, isNum: Str -> bool, n: nat)
    returns (r: Resolution, fsep: Byte, wid: nat, ghost st: Setup, ghost rows: seq<seq<Str>>)
    requires n < |lines| && FirstKept(lines, comment) == n
    ensures r.Refused? ==> CsvSpec(lines, cols, sep, comment, isNum) == Stream([], Some(r.error))
    ensures r.Heading? ==> st.start == n + 1
    ensures r.Heading? ==> Decoding(lines, cols, sep, comment, isNum, fsep, wid, r.vcols, 0, [], st, rows, n + 1)
    ensures r.Adopted? ==> st.start == n
    ensures r.Adopted? ==> Decoding(lines, cols, sep, comment, isNum, fsep, wid, r.vcols, 0, [], st, rows, n)
  {
    st, rows := Setup(NoSep, 0, map[], 0), [];
    fsep := sep;
    if fsep == NoSep {
      fsep, wid := AutoSeparator(lines[n]);
    }
    var sl := SplitCSV(lines[n], fsep);
    wid := |sl|;
    r := ResolveColumns(sl, cols, isNum);
    FirstLineSettles(lines, cols, sep, comment, isNum, fsep, sl, r);
    if r.Refused? {
      SpecRefused(lines, cols, sep, comment, isNum, r.error);
    } else {
      st := Settled(r, fsep, wid, n).value;
      rows := Table(lines, fsep);
      FirstLineRunning(lines, rows, comment, st, n);
    }
  }

  /** A kept data line `n` of the right field count: the decoder sends its record map,
      unless it repeats the heading or is empty. */
  lemma AlignedLine(lines: seq<Str>, cols: CallerMap, sep: Byte, comment: Str, isNum: Str -> bool,
                    fsep: Byte, wid: nat, vcols: map<Str, int>, algn: nat, out: seq<Record>,
                    st: Setup, rows: seq<seq<Str>>, n: nat, sl: seq<Str>, m: map<Str, Str>, heading: bool,
                    out': seq<Record>)
    requires n < |lines| && Kept(lines[n], comment) && st.start <= n
    requires Decoding(lines, cols, sep, comment, isNum, fsep, wid, vcols, algn, out, st, rows, n)
    requires sl == Split(lines[n], fsep) && |sl| == wid && Within(sl, vcols)
    requires m == RecordOf(sl, vcols) && (heading <==> Repeats(sl, vcols))
    requires out' == if !heading && m != map[] then out + [Record(m, n + 1)] else out
    ensures Decoding(lines, cols, sep, comment, isNum, fsep, wid, vcols, algn, out', st, rows, n + 1)
  {
    assert sl == rows[n];
    StepAligned(lines, rows, comment, st, algn, out, n, m, heading);
  }

  /** A kept data line `n` of another field count is counted; past the misalignment limit
      the decoder stops, and what it has sent with the error is the stream. */
  lemma MisalignedLine(lines: seq<Str>, cols: CallerMap, sep: Byte, comment: Str, isNum: Str -> bool,
                       fsep: Byte, wid: nat, vcols: map<Str, int>, algn: nat, out: seq<Record>,
                       st: Setup, rows: seq<seq<Str>>, n: nat, sl: seq<Str>)
    requires n < |lines| && Kept(lines[n], comment) && st.start <= n
    requires Decoding(lines, cols, sep, comment, isNum, fsep, wid, vcols, algn, out, st, rows, n)
    requires sl == Split(lines[n], fsep) && |sl| != wid
    ensures n + 1 > 200 && 50 * (algn + 1) > n + 1 ==>
      CsvSpec(lines, cols, sep, comment, isNum) == Stream(out, Some(Misaligned(algn + 1)))
    ensures !(n + 1 > 200 && 50 * (algn + 1) > n + 1) ==>
      Decoding(lines, cols, sep, comment, isNum, fsep, wid, vcols, algn + 1, out, st, rows, n + 1)
  {
    assert sl == rows[n];
    StepMisaligned(lines, rows, comment, st, algn, out, n);
    if n + 1 > 200 && 50 * (algn + 1) > n + 1 {
      SpecSettled(lines, cols, sep, comment, isNum, st, rows, out, Some(Misaligned(algn + 1)));
    }
  }

  /** The `default` case of the switch (csv.go:302-321), on kept line `lines[line - 1]`:
      send its record, or count it as misaligned; past the misalignment limit the decoder
      stops with the stream complete. */
  method DataLine(lines: seq<Str>, cols: CallerMap, sep: Byte, comment: Str, isNum: Str -> bool,
                  fsep: Byte, wid: nat, vcols: map<Str, int>, algn: nat, out: seq<Record>,
                  ghost st: Setup, ghost rows: seq<seq<Str>>, n: nat)
    returns (algn': nat, out': seq<Record>, stop: bool)
    requires n < |lines| && Kept(lines[n], comment) && st.start <= n
    requires Decoding(lines, cols, sep, comment, isNum, fsep, wid, vcols, algn, out, st, rows, n)
    ensures stop ==> CsvSpec(lines, cols, sep, comment, isNum) == Stream(out', Some(Misaligned(algn')))
    ensures !stop ==> Decoding(lines, cols, sep, comment, isNum, fsep, wid, vcols, algn', out', st, rows, n + 1)
  {
    var sl := SplitCSV(lines[n], fsep);
    if |sl| == wid {
      out' := AlignedData(lines, cols, sep, comment, isNum, fsep, wid, vcols, algn, out, st, rows, n, sl);
      algn', stop := algn, false;
    } else {
      algn', stop := MisalignedData(lines, cols, sep, comment, isNum, fsep, wid, vcols, algn, out, st, rows, n, sl);
      out' := out;
    }
  }

  /** The misaligned branch of the `default` case (csv.go:316-320): count the line, and
      stop once more than 200 lines are read and more than one in fifty is misaligned. */
  method MisalignedData(lines: seq<Str>, cols: CallerMap, sep: Byte, comment: Str, isNum: Str -> bool,
                        fsep: Byte, wid: nat, vcols: map<Str, int>, algn: nat, out: seq<Record>,
                        ghost st: Setup, ghost rows: seq<seq<Str>>, n: nat, sl: seq<Str>)
    returns (algn': nat, stop: bool)
    requires n < |lines| && Kept(lines[n], comment) && st.start <= n
    requires Decoding(lines, cols, sep, comment, isNum, fsep, wid, vcols, algn, out, st, rows, n)
    requires sl == Split(lines[n], fsep) && |sl| != wid
    ensures stop ==> CsvSpec(lines, cols, sep, comment, isNum) == Stream(out, Some(Misaligned(algn')))
    ensures !stop ==> Decoding(lines, cols, sep, comment, isNum, fsep, wid, vcols, algn', out, st, rows, n + 1)
  {
    MisalignedLine(lines, cols, sep, comment, isNum, fsep, wid, vcols, algn, out, st, rows, n, sl);
    algn' := algn + 1;
    stop := n + 1 > 200 && 50 * algn' > n + 1;
  }

  /** The aligned branch of the `default` case (csv.go:305-315): build the record map of
      the line's fields and send it, unless the line repeats the heading or the map is
      empty. */
  method AlignedData(lines: seq<Str>, cols: CallerMap, sep: Byte, comment: Str, isNum: Str -> bool,
                     fsep: Byte, wid: nat, vcols: map<Str, int>, algn: nat, out: seq<Record>,
                     ghost st: Setup, ghost rows: seq<seq<Str>>, n: nat, sl: seq<Str>)
    returns (out': seq<Record>)
    requires n < |lines| && Kept(lines[n], comment) && st.start <= n
    requires Decoding(lines, cols, sep, comment, isNum, fsep, wid, vcols, algn, out, st, rows, n)
    requires sl == Split(lines[n], fsep) && |sl| == wid
    ensures Decoding(lines, cols, sep, comment, isNum, fsep, wid, vcols, algn, out', st, rows, n + 1)
  {
    var m, heading := BuildRecord(sl, vcols);
    out' := if !heading && |m| > 0 then out + [Record(m, n + 1)] else out;
    AlignedLine(lines, cols, sep, comment, isNum, fsep, wid, vcols, algn, out, st, rows, n, sl, m, heading, out');
  }

  /** The body of the goroutine in ReadCSV, reading `lines` to the end. */
  method ReadCSV(lines: seq<Str>, cols: CallerMap, sep: Byte, comment: Str, isNum: Str -> bool) returns (s: Stream)
    ensures s == CsvSpec(lines, cols, sep, comment, isNum)
  {
    var fsep := sep;
    var vcols: map<Str, int> := map[];
    var wid, line, algn: nat := 0, 0, 0;
    var out: seq<Record> := [];
    ghost var st := Setup(NoSep, 0, map[], 0);
    ghost var rows: seq<seq<Str>> := [];
    while line < |lines|
      invariant Reading(lines, cols, sep, comment, isNum, fsep, wid, vcols, algn, out, st, rows, line)
    {
      var ln := lines[line];
      if IsBlank(ln) || (comment != [] && HasPrefix(ln, comment)) {
        // a blank or comment line
        SkipLine(lines, cols, sep, comment, isNum, fsep, wid, vcols, algn, out, st, rows, line);
      } else {
        KeptLine(lines, cols, sep, comment, isNum, fsep, wid, vcols, algn, out, st, rows, line);
        var data := true;
        if |vcols| == 0 {
          var r;
          r, fsep, wid, st, rows := FirstLine(lines, cols, sep, comment, isNum, line);
          match r {
            case Refused(e) =>
              return Stream([], Some(e));
            case Heading(v) =>
              vcols, data := v, false;
            case Adopted(v) =>
              // the `continue` at csv.go:300 reads the same line again, now as data
              vcols := v;
          }
        }
        if data {
          var stop;
          algn, out, stop := DataLine(lines, cols, sep, comment, isNum, fsep, wid, vcols, algn, out, st, rows, line);
          if stop {
            return Stream(out, Some(Misaligned(algn)));
          }
        }
      }
      line := line + 1;
    }
    ReadingDone(lines, cols, sep, comment, isNum, fsep, wid, vcols, algn, out, st, rows);
    return Stream(out, None);
  }

  // ---------------------------------------------------------------------------
  // What the stream promises

  /** Record `r` comes from a line before the `n`-th that yields it. */
  predicate SentFrom(r: Record, lines: seq<Str>, rows: seq<seq<Str>>, comment: Str, st: Setup, n: nat)
    requires n <= |lines| == |rows| && Fitting(st)
  {
    1 <= r.line <= n && Yields(lines, rows, comment, st, r.line - 1) &&
    r.fields == RecordOf(rows[r.line - 1], st.vcols)
  }

  /** Each of `rs` comes from a line before the `n`-th that yields it, in line order. */
  predicate FromLines(rs: seq<Record>, lines: seq<Str>, rows: seq<seq<Str>>, comment: Str, st: Setup, n: nat)
    requires n <= |lines| == |rows| && Fitting(st)
  {
    (forall j :: 0 <= j < |rs| ==> SentFrom(rs[j], lines, rows, comment, st, n)) &&
    (forall i, j :: 0 <= i < j < |rs| ==> rs[i].line < rs[j].line)
  }

  /** The records of the first `n` lines come from those lines, in line order. */
  lemma {:induction false} RecordsFromLines(lines: seq<Str>, rows: seq<seq<Str>>, comment: Str, st: Setup, n: nat)
    requires n <= |lines| == |rows| && Fitting(st)
    ensures FromLines(Records(lines, rows, comment, st, n), lines, rows, comment, st, n)
  {
    if n > 0 {
      RecordsFromLines(lines, rows, comment, st, n - 1);
      var rs, rs' := Records(lines, rows, comment, st, n - 1), Records(lines, rows, comment, st, n);
      FromLinesWiden(rs, lines, rows, comment, st, n);
      if Yields(lines, rows, comment, st, n - 1) {
        var r := RecordAt(rows, st, n - 1);
        assert rs' == rs + [r];
        FromLinesSnoc(rs, r, lines, rows, comment, st, n);
      } else {
        assert rs' == rs;
      }
    }
  }

  lemma FromLinesWiden(rs: seq<Record>, lines: seq<Str>, rows: seq<seq<Str>>, comment: Str, st: Setup, n: nat)
    requires 0 < n <= |lines| == |rows| && Fitting(st)
    requires FromLines(rs, lines, rows, comment, st, n - 1)
    ensures FromLines(rs, lines, rows, comment, st, n)
    ensures forall j :: 0 <= j < |rs| ==> rs[j].line < n
  {
    forall j | 0 <= j < |rs| ensures SentFrom(rs[j], lines, rows, comment, st, n) && rs[j].line < n {
      assert SentFrom(rs[j], lines, rows, comment, st, n - 1);
    }
  }

  lemma FromLinesSnoc(rs: seq<Record>, r: Record, lines: seq<Str>, rows: seq<seq<Str>>, comment: Str, st: Setup, n: nat)
    requires 0 < n <= |lines| == |rows| && Fitting(st)
    requires FromLines(rs, lines, rows, comment, st, n) && forall j :: 0 <= j < |rs| ==> rs[j].line < n
    requires r.line == n && SentFrom(r, lines, rows, comment, st, n)
    ensures FromLines(rs + [r], lines, rows, comment, st, n)
  {
    var rs' := rs + [r];
    forall j | 0 <= j < |rs'| ensures SentFrom(rs'[j], lines, rows, comment, st, n) {
      if j < |rs| {
        assert rs'[j] == rs[j];
      }
    }
    forall i, j | 0 <= i < j < |rs'| ensures rs'[i].line < rs'[j].line {
      assert rs'[i] == rs[i];
      if j < |rs| {
        assert rs'[j] == rs[j];
      }
    }
  }

  lemma {:induction false} RecordsPrefix(lines: seq<Str>, rows: seq<seq<Str>>, comment: Str, st: Setup, i: nat, n: nat)
    requires i <= n <= |lines| == |rows| && Fitting(st)
    ensures Records(lines, rows, comment, st, i) <= Records(lines, rows, comment, st, n)
    decreases n - i
  {
    if i < n {
      RecordsPrefix(lines, rows, comment, st, i, n - 1);
    }
  }

  lemma {:induction false} RecordsBeforeFirst(lines: seq<Str>, rows: seq<seq<Str>>, comment: Str, st: Setup, n: nat)
    requires n <= |lines| == |rows| && Fitting(st)
    requires forall k :: 0 <= k < n ==> !Kept(lines[k], comment)
    ensures Records(lines, rows, comment, st, n) == []
  {
    if n > 0 {
      RecordsBeforeFirst(lines, rows, comment, st, n - 1);
    }
  }

  /** Record `r` is the record of a kept line numbered `r.line` (from 1, counting every
      line): the line has the settled field count, `r.fields` is the record map of its
      fields, that map is non-empty and the line does not repeat the heading. */
  predicate DataRecord(r: Record, lines: seq<Str>, comment: Str, st: Setup) {
    Fitting(st) && 1 <= r.line <= |lines| &&
    var sl := Split(lines[r.line - 1], st.sep);
    Kept(lines[r.line - 1], comment) && |sl| == st.wid &&
    r.fields == RecordOf(sl, st.vcols) && r.fields != map[] && !Repeats(sl, st.vcols)
  }

  /** The records sent under settled columns come from kept lines of the settled field
      count after the heading, in increasing line order; each carries the non-empty record
      map of its fields and does not repeat the heading. */
  lemma OutcomeRecords(lines: seq<Str>, rows: seq<seq<Str>>, comment: Str, st: Setup)
    requires Fitting(st) && rows == Table(lines, st.sep)
    ensures var s := Outcome(lines, rows, comment, st);
      forall j :: 0 <= j < |s.records| ==>
        FirstKept(lines, comment) + 1 <= s.records[j].line && st.start + 1 <= s.records[j].line &&
        DataRecord(s.records[j], lines, comment, st)
    ensures var s := Outcome(lines, rows, comment, st);
      forall i, j :: 0 <= i < j < |s.records| ==> s.records[i].line < s.records[j].line
    ensures var s := Outcome(lines, rows, comment, st);
      forall j :: 0 <= j < |s.records| ==> s.records[j].line <= FirstBreach(lines, rows, comment, st)
  {
    var s := Outcome(lines, rows, comment, st);
    RecordsFromLines(lines, rows, comment, st, FirstBreach(lines, rows, comment, st));
    forall j | 0 <= j < |s.records|
      ensures FirstKept(lines, comment) + 1 <= s.records[j].line && st.start + 1 <= s.records[j].line &&
        DataRecord(s.records[j], lines, comment, st)
    {
      var k := s.records[j].line - 1;
      assert rows[k] == Split(lines[k], st.sep);
    }
  }

  /** Every line that yields a record, read before the decoder gives up, is sent. */
  lemma OutcomeComplete(lines: seq<Str>, rows: seq<seq<Str>>, comment: Str, st: Setup, k: nat)
    requires |lines| == |rows| && Fitting(st)
    requires k < FirstBreach(lines, rows, comment, st) && Yields(lines, rows, comment, st, k)
    ensures RecordAt(rows, st, k) in Outcome(lines, rows, comment, st).records
  {
    var rs := Records(lines, rows, comment, st, k + 1);
    assert rs[|rs| - 1] == RecordAt(rows, st, k);
    RecordsPrefix(lines, rows, comment, st, k + 1, FirstBreach(lines, rows, comment, st));
  }

  /** When data starts at the first kept line `f` and that line yields a record, it is the
      first record sent. */
  lemma OutcomeFirst(lines: seq<Str>, rows: seq<seq<Str>>, comment: Str, st: Setup, f: nat)
    requires |lines| == |rows| && Fitting(st)
    requires f == FirstKept(lines, comment) && f < |lines| && st.start == f
    requires Yields(lines, rows, comment, st, f)
    ensures var s := Outcome(lines, rows, comment, st);
      s.records != [] && s.records[0] == RecordAt(rows, st, f)
  {
    var b := FirstBreach(lines, rows, comment, st);
    assert f < b by {
      assert forall k :: 0 <= k <= f ==> !Breach(lines, rows, comment, st, k);
    }
    assert Records(lines, rows, comment, st, f + 1) == [RecordAt(rows, st, f)] by {
      RecordsBeforeFirst(lines, rows, comment, st, f);
    }
    RecordsPrefix(lines, rows, comment, st, f + 1, b);
  }

  /** The misalignment error is sent exactly when some line breaches the limit, and carries
      the count at the first breach, past line 200 and above one line in fifty. */
  lemma OutcomeMisaligned(lines: seq<Str>, rows: seq<seq<Str>>, comment: Str, st: Setup)
    requires |lines| == |rows| && Fitting(st)
    ensures var s := Outcome(lines, rows, comment, st);
      s.error.Some? <==> Overrun(lines, rows, comment, st)
    ensures var s, b := Outcome(lines, rows, comment, st), FirstBreach(lines, rows, comment, st);
      s.error.Some? ==>
        s.error.value.Misaligned? && b + 1 > 200 &&
        s.error.value.rows == MisCount(lines, rows, comment, st, b + 1) && 50 * s.error.value.rows > b + 1
  {
    var b := FirstBreach(lines, rows, comment, st);
    if b < |lines| {
      assert Breach(lines, rows, comment, st, b);
    }
  }

  /** The first kept line settles the columns. */
  predicate Settles(lines: seq<Str>, cols: CallerMap, sep: Byte, comment: Str, isNum: Str -> bool) {
    FirstKept(lines, comment) < |lines| && Settle(lines, cols, sep, comment, isNum).Ok?
  }

  /** How the first kept line was resolved (meaningful when there is one). */
  function FirstResolution(lines: seq<Str>, cols: CallerMap, sep: Byte, comment: Str, isNum: Str -> bool): Resolution
    requires FirstKept(lines, comment) < |lines|
  {
    var f := FirstKept(lines, comment);
    Resolve(Split(lines[f], Separator(lines[f], sep)), cols, isNum)
  }

  /** A column error is sent exactly when the first kept line does not settle the columns;
      it is then the only thing sent. */
  lemma CsvColumnError(lines: seq<Str>, cols: CallerMap, sep: Byte, comment: Str, isNum: Str -> bool)
    ensures var s := CsvSpec(lines, cols, sep, comment, isNum);
      (s.error.Some? && !s.error.value.Misaligned?) <==>
        FirstKept(lines, comment) < |lines| && Settle(lines, cols, sep, comment, isNum).Fail?
    ensures var s := CsvSpec(lines, cols, sep, comment, isNum);
      FirstKept(lines, comment) < |lines| && Settle(lines, cols, sep, comment, isNum).Fail? ==>
        s.records == [] && s.error == Some(FirstResolution(lines, cols, sep, comment, isNum).error)
  {
    if Settles(lines, cols, sep, comment, isNum) {
      var st := Settle(lines, cols, sep, comment, isNum).value;
      OutcomeMisaligned(lines, Table(lines, st.sep), comment, st);
    }
  }

  /** Every record sent is a kept line, numbered from 1 counting every line, with the field
      count of the first kept line; its map is the non-empty record map of its fields and
      the line does not repeat the heading. The first kept line itself is sent only when
      it was data under an adopted caller map. Records come in increasing line order, and
      none comes from the line at which the decoder gives up or from any later line. */
  lemma CsvRecords(lines: seq<Str>, cols: CallerMap, sep: Byte, comment: Str, isNum: Str -> bool)
    ensures CsvSpec(lines, cols, sep, comment, isNum).records != [] ==> Settles(lines, cols, sep, comment, isNum)
    ensures var s := CsvSpec(lines, cols, sep, comment, isNum);
      Settles(lines, cols, sep, comment, isNum) ==>
      var st, f := Settle(lines, cols, sep, comment, isNum).value, FirstKept(lines, comment);
      forall j :: 0 <= j < |s.records| ==>
        f + 1 <= s.records[j].line && DataRecord(s.records[j], lines, comment, st) &&
        (s.records[j].line == f + 1 ==> FirstResolution(lines, cols, sep, comment, isNum).Adopted?)
    ensures var s := CsvSpec(lines, cols, sep, comment, isNum);
      forall i, j :: 0 <= i < j < |s.records| ==> s.records[i].line < s.records[j].line
    ensures var s := CsvSpec(lines, cols, sep, comment, isNum);
      Settles(lines, cols, sep, comment, isNum) ==>
      var st := Settle(lines, cols, sep, comment, isNum).value;
      forall j :: 0 <= j < |s.records| ==> s.records[j].line <= FirstBreach(lines, Table(lines, st.sep), comment, st)
  {
    if Settles(lines, cols, sep, comment, isNum) {
      var st := Settle(lines, cols, sep, comment, isNum).value;
      SettleStart(lines, cols, sep, comment, isNum);
      OutcomeRecords(lines, Table(lines, st.sep), comment, st);
    }
  }

  /** Data starts at the first kept line exactly when the caller's map was adopted, and
      after it when the line was a heading. */
  lemma SettleStart(lines: seq<Str>, cols: CallerMap, sep: Byte, comment: Str, isNum: Str -> bool)
    requires Settles(lines, cols, sep, comment, isNum)
    ensures var st, f := Settle(lines, cols, sep, comment, isNum).value, FirstKept(lines, comment);
      var r := FirstResolution(lines, cols, sep, comment, isNum);
      (st.start == f <==> r.Adopted?) && (st.start == f + 1 <==> r.Heading?) && st.vcols == r.vcols
  {
  }

  /** Under an adopted caller map the first kept line is data: it is the first record
      whenever one of its selected fields is not blank. */
  lemma CsvFirstLine(lines: seq<Str>, cols: CallerMap, sep: Byte, comment: Str, isNum: Str -> bool)
    requires Settles(lines, cols, sep, comment, isNum) && FirstResolution(lines, cols, sep, comment, isNum).Adopted?
    requires var st, f := Settle(lines, cols, sep, comment, isNum).value, FirstKept(lines, comment);
      RecordOf(Split(lines[f], st.sep), st.vcols) != map[]
    ensures var s, st, f := CsvSpec(lines, cols, sep, comment, isNum),
                            Settle(lines, cols, sep, comment, isNum).value, FirstKept(lines, comment);
      s.records != [] && s.records[0] == Record(RecordOf(Split(lines[f], st.sep), st.vcols), f + 1)
  {
    var st, f := Settle(lines, cols, sep, comment, isNum).value, FirstKept(lines, comment);
    var sl := Split(lines[f], st.sep);
    var rows := Table(lines, st.sep);
    assert rows[f] == sl;
    assert st.start == f && st.vcols == CallerNames(cols) && st.vcols != map[];
    assert !Repeats(sl, st.vcols) by {
      ResolveWithMap(sl, cols, isNum);
      var c :| c in st.vcols;
      assert Trim(sl[st.vcols[c] - 1]) != c;
    }
    OutcomeFirst(lines, rows, comment, st, f);
  }

  /** Every kept data line of the right field count that yields a record, read before the
      decoder gives up, is sent. */
  lemma CsvComplete(lines: seq<Str>, cols: CallerMap, sep: Byte, comment: Str, isNum: Str -> bool, k: nat)
    requires Settles(lines, cols, sep, comment, isNum)
    requires var st := Settle(lines, cols, sep, comment, isNum).value;
      var rows := Table(lines, st.sep);
      k < FirstBreach(lines, rows, comment, st) && Yields(lines, rows, comment, st, k)
    ensures var st := Settle(lines, cols, sep, comment, isNum).value;
      Record(RecordOf(Split(lines[k], st.sep), st.vcols), k + 1) in CsvSpec(lines, cols, sep, comment, isNum).records
  {
    var st := Settle(lines, cols, sep, comment, isNum).value;
    var rows := Table(lines, st.sep);
    OutcomeComplete(lines, rows, comment, st, k);
    assert rows[k] == Split(lines[k], st.sep);
  }

  /** The decoder stops with a misalignment error exactly when, past line 200, more than
      one kept data line in fifty has had another field count; the error carries that
      count. */
  lemma CsvMisaligned(lines: seq<Str>, cols: CallerMap, sep: Byte, comment: Str, isNum: Str -> bool)
    ensures var s := CsvSpec(lines, cols, sep, comment, isNum);
      (s.error.Some? && s.error.value.Misaligned?) <==>
        (Settles(lines, cols, sep, comment, isNum) &&
         var st := Settle(lines, cols, sep, comment, isNum).value;
         Overrun(lines, Table(lines, st.sep), comment, st))
    ensures var s := CsvSpec(lines, cols, sep, comment, isNum);
      s.error.Some? && s.error.value.Misaligned? ==>
        Settles(lines, cols, sep, comment, isNum) &&
        (var st := Settle(lines, cols, sep, comment, isNum).value;
         var rows := Table(lines, st.sep);
         var b := FirstBreach(lines, rows, comment, st);
         b + 1 > 200 && s.error.value.rows == MisCount(lines, rows, comment, st, b + 1) &&
         50 * s.error.value.rows > b + 1)
  {
    if Settles(lines, cols, sep, comment, isNum) {
      var st := Settle(lines, cols, sep, comment, isNum).value;
      var rows := Table(lines, st.sep);
      OutcomeMisaligned(lines, rows, comment, st);
      assert CsvSpec(lines, cols, sep, comment, isNum) == Outcome(lines, rows, comment, st);
    } else if FirstKept(lines, comment) < |lines| {
      assert CsvSpec(lines, cols, sep, comment, isNum).error == Some(Settle(lines, cols, sep, comment, isNum).error);
    }
  }
}

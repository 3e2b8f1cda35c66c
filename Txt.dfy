/** The line loop of `ReadTXT` (csv.go:188-226): fixed-width lines cut into fields by the
    caller's byte ranges. The first kept line fixes the width and is checked against the
    ranges; lines of another width count as misaligned; every other kept line yields the
    non-empty trimmed slices as a record. */
module Txt {
  import opened Text
  import opened Common

  /** A byte range of a line (`[2]int`): first and last byte, counted from 1. */
  type Range = (int, int)

  /** The caller's column map: column name to byte range. */
  type ColumnMap = map<Str, Range>

  predicate RangeOk(r: Range, wid: nat) {
    0 < r.0 <= r.1 <= wid
  }

  /** A column map that passes the checks on a first line of width `wid`. */
  predicate Layout(cols: ColumnMap, wid: nat) {
    0 < |cols| <= wid && forall c :: c in cols ==> RangeOk(cols[c], wid)
  }

  /** The error the checks raise (csv.go:196-203): the map is empty or has more entries
      than the line has bytes, or some range does not lie within the line in order. */
  function LayoutError(cols: ColumnMap, wid: nat): Option<Error> {
    if |cols| == 0 || |cols| > wid then Some(BadColumnMap)
    else if exists c :: c in cols && !RangeOk(cols[c], wid) then Some(BadRange)
    else None
  }

  /** The checks raise an error exactly when the map is not a layout, and the error is one
      of the two layout errors. */
  lemma LayoutErrorKinds(cols: ColumnMap, wid: nat)
    ensures LayoutError(cols, wid) == None <==> Layout(cols, wid)
    ensures LayoutError(cols, wid) in {None, Some(BadColumnMap), Some(BadRange)}
  {
  }

  /** The checks of csv.go:196-203, visiting the ranges in any order. */
  method CheckLayout(cols: ColumnMap, wid: nat) returns (e: Option<Error>)
    ensures e == LayoutError(cols, wid)
    ensures e == None <==> Layout(cols, wid)
  {
    if |cols| == 0 || |cols| > wid {
      return Some(BadColumnMap);
    }
    var rest := cols.Keys;
    while rest != {}
      invariant rest <= cols.Keys
      invariant forall c :: c in cols && c !in rest ==> RangeOk(cols[c], wid)
      decreases |rest|
    {
      var c :| c in rest;
      var r := cols[c];
      if r.0 <= 0 || r.0 > r.1 || r.1 > wid {
        return Some(BadRange);
      }
      rest := rest - {c};
    }
    return None;
  }

  // ---------------------------------------------------------------------------
  // Slicing one line

  /** The trimmed text of byte range `r` of `ln` (`ln[r[0]-1:r[1]]`). */
  function Cut(ln: Str, r: Range): Str
    requires RangeOk(r, |ln|)
  {
    Trim(ln[r.0 - 1..r.1])
  }

  /** The non-empty cuts for the columns in `keys`. */
  function SliceOver(ln: Str, cols: ColumnMap, keys: set<Str>): map<Str, Str>
    requires keys <= cols.Keys && forall c :: c in cols ==> RangeOk(cols[c], |ln|)
  {
    map c | c in keys && Cut(ln, cols[c]) != [] :: Cut(ln, cols[c])
  }

  /** The record map built for a line of the right width (csv.go:210-215). */
  function Slice(ln: Str, cols: ColumnMap): map<Str, Str>
    requires forall c :: c in cols ==> RangeOk(cols[c], |ln|)
  {
    SliceOver(ln, cols, cols.Keys)
  }

  lemma SliceStep(ln: Str, cols: ColumnMap, keys: set<Str>, c: Str)
    requires keys <= cols.Keys && c in cols && c !in keys
    requires forall c :: c in cols ==> RangeOk(cols[c], |ln|)
    ensures var f := Cut(ln, cols[c]);
      SliceOver(ln, cols, keys + {c}) ==
        if f != [] then SliceOver(ln, cols, keys)[c := f] else SliceOver(ln, cols, keys)
  {
    var f := Cut(ln, cols[c]);
    var m, m' := SliceOver(ln, cols, keys), SliceOver(ln, cols, keys + {c});
    if f != [] {
      assert m'.Keys == m.Keys + {c};
    } else {
      assert m'.Keys == m.Keys;
    }
  }

  /** The loop over the ranges that fills the record map. */
  method SliceRecord(ln: Str, cols: ColumnMap) returns (m: map<Str, Str>)
    requires forall c :: c in cols ==> RangeOk(cols[c], |ln|)
    ensures m == Slice(ln, cols)
  {
    m := map[];
    var rest := cols.Keys;
    while rest != {}
      invariant rest <= cols.Keys
      invariant m == SliceOver(ln, cols, cols.Keys - rest)
      decreases |rest|
    {
      var c :| c in rest;
      var r := cols[c];
      var f := Trim(ln[r.0 - 1..r.1]);
      SliceStep(ln, cols, cols.Keys - rest, c);
      assert cols.Keys - rest + {c} == cols.Keys - (rest - {c});
      if |f| > 0 {
        m := m[c := f];
      }
      rest := rest - {c};
    }
  }

  /** Every value of a record map is the non-empty, trimmed text of its column's range,
      and every key is a column of the map. */
  lemma SliceFields(ln: Str, cols: ColumnMap)
    requires forall c :: c in cols ==> RangeOk(cols[c], |ln|)
    ensures Slice(ln, cols).Keys <= cols.Keys
    ensures forall c :: c in Slice(ln, cols) ==>
      var f := Slice(ln, cols)[c];
      f == Trim(ln[cols[c].0 - 1..cols[c].1]) && f != [] && f[0] != ' ' && f[|f| - 1] != ' '
    ensures forall c :: c in cols && !IsBlank(ln[cols[c].0 - 1..cols[c].1]) ==> c in Slice(ln, cols)
  {
    forall c | c in cols {
      TrimShape(ln[cols[c].0 - 1..cols[c].1]);
    }
  }

  // ---------------------------------------------------------------------------
  // The stream ReadTXT delivers

  /** Kept lines among the first `n` whose width is not `wid`. */
  function MisCount(lines: seq<Str>, comment: Str, wid: nat, n: nat): nat
    requires n <= |lines|
  {
    if n == 0 then 0
    else MisCount(lines, comment, wid, n - 1) + (if Kept(lines[n - 1], comment) && |lines[n - 1]| != wid then 1 else 0)
  }

  /** Line `k` (0-based) is misaligned and takes the share of misaligned lines past the
      limit: more than 200 lines read and more than one in fifty of them misaligned
      (`float64(algn)/float64(line) > 0.02`). */
  predicate Breach(lines: seq<Str>, comment: Str, wid: nat, k: nat)
    requires k < |lines|
  {
    Kept(lines[k], comment) && |lines[k]| != wid &&
    k + 1 > 200 && 50 * MisCount(lines, comment, wid, k + 1) > k + 1
  }

  function FirstBreachFrom(lines: seq<Str>, comment: Str, wid: nat, i: nat): (b: nat)
    requires i <= |lines|
    ensures i <= b <= |lines|
    ensures b < |lines| ==> Breach(lines, comment, wid, b)
    ensures forall k :: i <= k < b ==> !Breach(lines, comment, wid, k)
    decreases |lines| - i
  {
    if i == |lines| || Breach(lines, comment, wid, i) then i else FirstBreachFrom(lines, comment, wid, i + 1)
  }

  /** The line at which the decoder gives up (`|lines|` when it never does). */
  function FirstBreach(lines: seq<Str>, comment: Str, wid: nat): (b: nat)
    ensures b <= |lines|
    ensures b < |lines| ==> Breach(lines, comment, wid, b)
    ensures forall k :: 0 <= k < b ==> !Breach(lines, comment, wid, k)
  {
    FirstBreachFrom(lines, comment, wid, 0)
  }

  /** The record of line `k` (0-based), when it yields one. */
  predicate Yields(lines: seq<Str>, comment: Str, cols: ColumnMap, wid: nat, k: nat)
    requires k < |lines| && Layout(cols, wid)
  {
    Kept(lines[k], comment) && |lines[k]| == wid && Slice(lines[k], cols) != map[]
  }

  /** The records of the first `n` lines, for a first-line width `wid`. */
  function Records(lines: seq<Str>, comment: Str, cols: ColumnMap, wid: nat, n: nat): seq<Record>
    requires n <= |lines| && Layout(cols, wid)
  {
    if n == 0 then []
    else
      Records(lines, comment, cols, wid, n - 1) +
      (if Yields(lines, comment, cols, wid, n - 1) then [Record(Slice(lines[n - 1], cols), n)] else [])
  }

  /** What ReadTXT sends for a file: nothing without a kept line; a layout error on the
      first kept line; otherwise the records of the lines before the first breach, and
      the misalignment error with its count if there is a breach. */
  function TxtSpec(lines: seq<Str>, cols: ColumnMap, comment: Str): Stream {
    if FirstKept(lines, comment) == |lines| then Stream([], None)
    else
      var wid := Width(lines, comment);
      if !Layout(cols, wid) then Stream([], LayoutError(cols, wid))
      else
        var b := FirstBreach(lines, comment, wid);
        Stream(Records(lines, comment, cols, wid, b),
               if b < |lines| then Some(Misaligned(MisCount(lines, comment, wid, b + 1))) else None)
  }

  // ---------------------------------------------------------------------------
  // The decoder loop

  /** A blank or comment line changes nothing. */
  lemma StepSkipped(lines: seq<Str>, comment: Str, cols: ColumnMap, wid: nat, algn: nat, out: seq<Record>, n: nat)
    requires n < |lines| && Running(lines, comment, cols, wid, algn, out, n) && !Kept(lines[n], comment)
    ensures Running(lines, comment, cols, wid, algn, out, n + 1)
  {
  }

  /** A kept line of another width is counted; past the limit it is the first breach. */
  lemma StepMisaligned(lines: seq<Str>, comment: Str, cols: ColumnMap, wid: nat, algn: nat, out: seq<Record>, n: nat)
    requires n < |lines| && Running(lines, comment, cols, wid, algn, out, n)
    requires Kept(lines[n], comment) && |lines[n]| != wid
    ensures MisCount(lines, comment, wid, n + 1) == algn + 1
    ensures Breach(lines, comment, wid, n) <==> n + 1 > 200 && 50 * (algn + 1) > n + 1
    ensures !Breach(lines, comment, wid, n) ==> Running(lines, comment, cols, wid, algn + 1, out, n + 1)
  {
  }

  /** A kept line of the first line's width sends its slice, unless that is empty. */
  lemma StepAligned(lines: seq<Str>, comment: Str, cols: ColumnMap, wid: nat, algn: nat, out: seq<Record>, n: nat)
    requires n < |lines| && Running(lines, comment, cols, wid, algn, out, n)
    requires Kept(lines[n], comment) && |lines[n]| == wid
    ensures var m := Slice(lines[n], cols);
      Running(lines, comment, cols, wid, algn, out + (if m != map[] then [Record(m, n + 1)] else []), n + 1)
  {
  }

  /** The decoder's state after the lines before `n`, once the first kept line `f` has
      been read: width `wid`, misaligned count, records sent, and no breach so far. */
  ghost predicate Running(lines: seq<Str>, comment: Str, cols: ColumnMap, wid: nat, algn: nat, out: seq<Record>, n: nat)
    requires n <= |lines|
  {
    Layout(cols, wid) &&
    algn == MisCount(lines, comment, wid, n) &&
    out == Records(lines, comment, cols, wid, n) &&
    forall k :: 0 <= k < n ==> !Breach(lines, comment, wid, k)
  }

  /** The body of the goroutine in ReadTXT, reading `lines` to the end. */
  method ReadTXT(lines: seq<Str>, cols: ColumnMap, comment: Str) returns (s: Stream)
    ensures s == TxtSpec(lines, cols, comment)
  {
    var wid, line, algn := 0, 0, 0;
    var out: seq<Record> := [];
    ghost var f := FirstKept(lines, comment);
    while line < |lines|
      invariant line <= |lines|
      invariant line <= f ==> wid == 0 && algn == 0 && out == []
      invariant line > f ==> f < |lines| && wid == |lines[f]| > 0 && Running(lines, comment, cols, wid, algn, out, line)
    {
      var ln := lines[line];
      line := line + 1;
      if IsBlank(ln) || (comment != [] && HasPrefix(ln, comment)) {
        // a blank or comment line
        if line - 1 > f {
          StepSkipped(lines, comment, cols, wid, algn, out, line - 1);
        }
      } else {
        if wid == 0 {
          assert line - 1 == f;
          wid := |ln|;
          var e := CheckLayout(cols, wid);
          if e.Some? {
            TxtRefused(lines, cols, comment);
            return Stream(out, e);
          }
          assert Running(lines, comment, cols, wid, algn, out, line - 1) by {
            FirstKeptBlank(lines, comment, cols, wid, line - 1);
          }
          // the `continue` at csv.go:204 reads the same line again, now with its width set
        }
        if |ln| != wid {
          StepMisaligned(lines, comment, cols, wid, algn, out, line - 1);
          algn := algn + 1;
          if line > 200 && 50 * algn > line {
            TxtStopped(lines, cols, comment, wid, algn - 1, out, line - 1);
            return Stream(out, Some(Misaligned(algn)));
          }
        } else {
          StepAligned(lines, comment, cols, wid, algn, out, line - 1);
          var m := SliceRecord(ln, cols);
          if |m| > 0 {
            out := out + [Record(m, line)];
          }
        }
      }
    }
    if f < |lines| {
      TxtFinished(lines, cols, comment, wid, algn, out);
    }
    return Stream(out, None);
  }

  /** The first kept line does not fit the map: the layout error and nothing else. */
  lemma TxtRefused(lines: seq<Str>, cols: ColumnMap, comment: Str)
    requires FirstKept(lines, comment) < |lines|
    requires LayoutError(cols, |lines[FirstKept(lines, comment)]|).Some?
    ensures TxtSpec(lines, cols, comment) == Stream([], LayoutError(cols, |lines[FirstKept(lines, comment)]|))
  {
    LayoutErrorKinds(cols, |lines[FirstKept(lines, comment)]|);
  }

  /** The decoder stops at the first breach, with the records before it. */
  lemma TxtStopped(lines: seq<Str>, cols: ColumnMap, comment: Str, wid: nat, algn: nat, out: seq<Record>, n: nat)
    requires n < |lines| && FirstKept(lines, comment) < |lines| && wid == |lines[FirstKept(lines, comment)]|
    requires Running(lines, comment, cols, wid, algn, out, n) && Breach(lines, comment, wid, n)
    ensures TxtSpec(lines, cols, comment) == Stream(out, Some(Misaligned(MisCount(lines, comment, wid, n + 1))))
  {
    assert FirstBreach(lines, comment, wid) == n;
  }

  /** The decoder reads every line when there is no breach. */
  lemma TxtFinished(lines: seq<Str>, cols: ColumnMap, comment: Str, wid: nat, algn: nat, out: seq<Record>)
    requires FirstKept(lines, comment) < |lines| && wid == |lines[FirstKept(lines, comment)]|
    requires Running(lines, comment, cols, wid, algn, out, |lines|)
    ensures TxtSpec(lines, cols, comment) == Stream(out, None)
  {
    assert FirstBreach(lines, comment, wid) == |lines|;
  }

  /** Before the first kept line nothing is counted or emitted. */
  lemma {:induction false} FirstKeptBlank(lines: seq<Str>, comment: Str, cols: ColumnMap, wid: nat, n: nat)
    requires n <= |lines| && Layout(cols, wid)
    requires forall k :: 0 <= k < n ==> !Kept(lines[k], comment)
    ensures Running(lines, comment, cols, wid, 0, [], n)
  {
    if n > 0 {
      FirstKeptBlank(lines, comment, cols, wid, n - 1);
    }
  }

  // ---------------------------------------------------------------------------
  // What the stream promises

  /** Each of `rs` comes from a line before the `n`-th that yields it, in line order. */
  predicate FromLines(rs: seq<Record>, lines: seq<Str>, comment: Str, cols: ColumnMap, wid: nat, n: nat)
    requires n <= |lines| && Layout(cols, wid)
  {
    (forall j :: 0 <= j < |rs| ==> SentFrom(rs[j], lines, comment, cols, wid, n)) &&
    (forall i, j :: 0 <= i < j < |rs| ==> rs[i].line < rs[j].line)
  }

  /** Record `r` is the slice of a line among the first `n` that yields one. */
  predicate SentFrom(r: Record, lines: seq<Str>, comment: Str, cols: ColumnMap, wid: nat, n: nat)
    requires n <= |lines| && Layout(cols, wid)
  {
    1 <= r.line <= n && Yields(lines, comment, cols, wid, r.line - 1) &&
    r.fields == Slice(lines[r.line - 1], cols)
  }

  /** The records of the first `n` lines come from those lines, in line order. */
  lemma {:induction false} RecordsFromLines(lines: seq<Str>, comment: Str, cols: ColumnMap, wid: nat, n: nat)
    requires n <= |lines| && Layout(cols, wid)
    ensures FromLines(Records(lines, comment, cols, wid, n), lines, comment, cols, wid, n)
  {
    if n > 0 {
      RecordsFromLines(lines, comment, cols, wid, n - 1);
      var rs, rs' := Records(lines, comment, cols, wid, n - 1), Records(lines, comment, cols, wid, n);
      FromLinesWiden(rs, lines, comment, cols, wid, n);
      if Yields(lines, comment, cols, wid, n - 1) {
        var r := Record(Slice(lines[n - 1], cols), n);
        assert rs' == rs + [r];
        FromLinesSnoc(rs, r, lines, comment, cols, wid, n);
      } else {
        assert rs' == rs;
      }
    }
  }

  lemma FromLinesWiden(rs: seq<Record>, lines: seq<Str>, comment: Str, cols: ColumnMap, wid: nat, n: nat)
    requires 0 < n <= |lines| && Layout(cols, wid)
    requires FromLines(rs, lines, comment, cols, wid, n - 1)
    ensures FromLines(rs, lines, comment, cols, wid, n)
    ensures forall j :: 0 <= j < |rs| ==> rs[j].line < n
  {
  }

  lemma FromLinesSnoc(rs: seq<Record>, r: Record, lines: seq<Str>, comment: Str, cols: ColumnMap, wid: nat, n: nat)
    requires 0 < n <= |lines| && Layout(cols, wid)
    requires FromLines(rs, lines, comment, cols, wid, n) && forall j :: 0 <= j < |rs| ==> rs[j].line < n
    requires r.line == n && Yields(lines, comment, cols, wid, n - 1) && r.fields == Slice(lines[n - 1], cols)
    ensures FromLines(rs + [r], lines, comment, cols, wid, n)
  {
    var rs' := rs + [r];
    forall j | 0 <= j < |rs'|
      ensures SentFrom(rs'[j], lines, comment, cols, wid, n)
    {
      if j < |rs| {
        assert rs'[j] == rs[j];
      }
    }
    forall i, j | 0 <= i < j < |rs'| ensures rs'[i].line < rs'[j].line {
      assert rs'[i] == rs[i];
      if j < |rs| {
        assert rs'[j] == rs[j];
      }
    }
  }

  lemma {:induction false} RecordsPrefix(lines: seq<Str>, comment: Str, cols: ColumnMap, wid: nat, i: nat, n: nat)
    requires i <= n <= |lines| && Layout(cols, wid)
    ensures Records(lines, comment, cols, wid, i) <= Records(lines, comment, cols, wid, n)
    decreases n - i
  {
    if i < n {
      RecordsPrefix(lines, comment, cols, wid, i, n - 1);
    }
  }

  /** Every line before the `n`-th that yields a record has its record in the stream. */
  lemma RecordsComplete(lines: seq<Str>, comment: Str, cols: ColumnMap, wid: nat, n: nat, k: nat)
    requires n <= |lines| && Layout(cols, wid)
    requires k < n && Yields(lines, comment, cols, wid, k)
    ensures Record(Slice(lines[k], cols), k + 1) in Records(lines, comment, cols, wid, n)
  {
    var rs := Records(lines, comment, cols, wid, k + 1);
    assert rs[|rs| - 1] == Record(Slice(lines[k], cols), k + 1);
    RecordsPrefix(lines, comment, cols, wid, k + 1, n);
  }

  /** The width the first kept line sets (0 while there is none). */
  function Width(lines: seq<Str>, comment: Str): nat {
    var f := FirstKept(lines, comment);
    if f < |lines| then |lines[f]| else 0
  }

  /** The decoder got past its first kept line: there is one and the map fits it. */
  predicate Started(lines: seq<Str>, cols: ColumnMap, comment: Str) {
    FirstKept(lines, comment) < |lines| && Layout(cols, Width(lines, comment))
  }

  /** A layout error is raised exactly when the first kept line does not fit the column
      map, and then before any record is sent. */
  lemma TxtLayoutError(lines: seq<Str>, cols: ColumnMap, comment: Str)
    ensures var s := TxtSpec(lines, cols, comment);
      (s.error == Some(BadColumnMap) || s.error == Some(BadRange)) <==>
        FirstKept(lines, comment) < |lines| && !Layout(cols, Width(lines, comment))
    ensures var s := TxtSpec(lines, cols, comment);
      s.error == Some(BadColumnMap) || s.error == Some(BadRange) ==> s.records == []
  {
    LayoutErrorKinds(cols, Width(lines, comment));
  }

  /** Every record sent is a kept line of the first kept line's width, numbered from 1
      counting every line, with the caller's column names as keys and non-empty trimmed
      slices as values; records come in increasing line order, and none comes from the line
      at which the decoder gives up or from any later line. */
  lemma TxtRecords(lines: seq<Str>, cols: ColumnMap, comment: Str)
    ensures TxtSpec(lines, cols, comment).records != [] ==> Started(lines, cols, comment)
    ensures var s, f := TxtSpec(lines, cols, comment), FirstKept(lines, comment);
      forall j :: 0 <= j < |s.records| ==>
        var r := s.records[j];
        f + 1 <= r.line <= |lines| && Kept(lines[r.line - 1], comment) &&
        |lines[r.line - 1]| == Width(lines, comment) && r.fields == Slice(lines[r.line - 1], cols) &&
        r.fields != map[]
    ensures var s := TxtSpec(lines, cols, comment);
      forall i, j :: 0 <= i < j < |s.records| ==> s.records[i].line < s.records[j].line
    ensures var s := TxtSpec(lines, cols, comment);
      Started(lines, cols, comment) ==>
        forall j :: 0 <= j < |s.records| ==> s.records[j].line <= FirstBreach(lines, comment, Width(lines, comment))
  {
    var s, f := TxtSpec(lines, cols, comment), FirstKept(lines, comment);
    if Started(lines, cols, comment) {
      var wid := Width(lines, comment);
      var b := FirstBreach(lines, comment, wid);
      assert s.records == Records(lines, comment, cols, wid, b);
      RecordsFromLines(lines, comment, cols, wid, b);
      forall j | 0 <= j < |s.records| ensures f + 1 <= s.records[j].line {
        var k := s.records[j].line - 1;
        assert Kept(lines[k], comment);
      }
    }
  }

  /** The first kept line is read again as data once it has set the width: it is the
      first record whenever one of its slices is not blank. */
  lemma TxtFirstLine(lines: seq<Str>, cols: ColumnMap, comment: Str)
    requires Started(lines, cols, comment)
    requires Slice(lines[FirstKept(lines, comment)], cols) != map[]
    ensures var s, f := TxtSpec(lines, cols, comment), FirstKept(lines, comment);
      s.records != [] && s.records[0] == Record(Slice(lines[f], cols), f + 1)
  {
    var f, wid := FirstKept(lines, comment), Width(lines, comment);
    var b := FirstBreach(lines, comment, wid);
    assert f < b by {
      if b < |lines| {
        BreachAfterFirst(lines, comment, wid, b);
      }
    }
    var r := Record(Slice(lines[f], cols), f + 1);
    assert Records(lines, comment, cols, wid, f + 1) == [r] by {
      RecordsBeforeFirst(lines, comment, cols, wid, f);
    }
    assert [r] <= Records(lines, comment, cols, wid, b) by {
      RecordsPrefix(lines, comment, cols, wid, f + 1, b);
    }
    assert TxtSpec(lines, cols, comment).records == Records(lines, comment, cols, wid, b);
  }

  lemma {:induction false} RecordsBeforeFirst(lines: seq<Str>, comment: Str, cols: ColumnMap, wid: nat, n: nat)
    requires n <= |lines| && Layout(cols, wid)
    requires forall k :: 0 <= k < n ==> !Kept(lines[k], comment)
    ensures Records(lines, comment, cols, wid, n) == []
  {
    if n > 0 {
      RecordsBeforeFirst(lines, comment, cols, wid, n - 1);
    }
  }

  /** No breach can happen at or before the first kept line, which has the width. */
  lemma BreachAfterFirst(lines: seq<Str>, comment: Str, wid: nat, k: nat)
    requires FirstKept(lines, comment) < |lines| && wid == |lines[FirstKept(lines, comment)]|
    requires k < |lines| && Breach(lines, comment, wid, k)
    ensures FirstKept(lines, comment) < k
  {
  }

  /** Every kept line of the right width with a non-blank slice, read before the decoder
      gives up, is sent. */
  lemma TxtComplete(lines: seq<Str>, cols: ColumnMap, comment: Str, k: nat)
    requires Started(lines, cols, comment)
    requires k < FirstBreach(lines, comment, Width(lines, comment))
    requires Yields(lines, comment, cols, Width(lines, comment), k)
    ensures Record(Slice(lines[k], cols), k + 1) in TxtSpec(lines, cols, comment).records
  {
    var wid := Width(lines, comment);
    RecordsComplete(lines, comment, cols, wid, FirstBreach(lines, comment, wid), k);
  }

  /** The decoder stops with a misalignment error exactly when, past line 200, more than
      one kept line in fifty has had the wrong width; the error carries that count. */
  lemma TxtMisaligned(lines: seq<Str>, cols: ColumnMap, comment: Str)
    ensures var s := TxtSpec(lines, cols, comment);
      (s.error.Some? && s.error.value.Misaligned?) <==>
        (Started(lines, cols, comment) &&
         exists k :: 0 <= k < |lines| && Breach(lines, comment, Width(lines, comment), k))
    ensures var s, wid := TxtSpec(lines, cols, comment), Width(lines, comment);
      s.error.Some? && s.error.value.Misaligned? ==>
        (var b := FirstBreach(lines, comment, wid);
         b + 1 > 200 && s.error.value.rows == MisCount(lines, comment, wid, b + 1) &&
         50 * s.error.value.rows > b + 1)
  {
    var wid := Width(lines, comment);
    var b := FirstBreach(lines, comment, wid);
    LayoutErrorKinds(cols, wid);
    if Started(lines, cols, comment) && b < |lines| {
      assert Breach(lines, comment, wid, b);
    }
  }
}

/** What the sniffer and both decoders share: the error kinds, the emitted record, the
    stream a decoder produces, the line classification, and the heading test. */
module Common {
  import opened Text

  datatype Option<T> = None | Some(value: T)

  /** The errors csv.go raises (by `panic`, turned into the returned or channelled error).
      Failures to open, stat or read the file are not modelled. */
  datatype Error =
    | NoData               // PeekCSV: no data line
    | BadColumnMap         // ReadTXT: range map empty or wider than the line
    | BadRange             // ReadTXT: a range outside 1..width or reversed
    | NoHeading            // ReadCSV: no caller map and the first line is not a heading
    | MissingColumns       // ReadCSV: only some caller names appear in the heading
    | IncompatibleMap      // ReadCSV: caller map cannot fit a headerless line
    | AmbiguousMap         // ReadCSV: two caller names share a column
    | Misaligned(rows: nat)  // both decoders: too many lines of the wrong shape

  datatype Result<T> = Ok(value: T) | Fail(error: Error)

  /** The key both decoders add to every record they emit. */
  const LineKey: Str := "~line"

  /** An emitted record: the selected, trimmed, non-empty fields, and the 1-based number of
      the line they come from, counting blank and comment lines. */
  datatype Record = Record(fields: map<Str, Str>, line: nat)

  /** The Go map sent on the channel: the fields with `~line` set to the decimal line number. */
  function ToMap(r: Record): (m: map<Str, Str>)
    ensures LineKey in m && m[LineKey] == Decimal(r.line) && DigitsValue(m[LineKey]) == r.line
    ensures forall c :: c in r.fields && c != LineKey ==> c in m && m[c] == r.fields[c]
    ensures m.Keys == r.fields.Keys + {LineKey}
  {
    DecimalValue(r.line);
    r.fields[LineKey := Decimal(r.line)]
  }

  /** Adding a key to a map adds it to the key set (kept apart so that callers need not
      reason about map updates on string keys). */
  lemma KeysAdd<K, V>(m: map<K, V>, k: K, v: V)
    ensures m[k := v].Keys == m.Keys + {k}
  {
  }

  /** What a decoder delivers: the records sent before it stopped, and at most one error. */
  datatype Stream = Stream(records: seq<Record>, error: Option<Error>)

  /** A line a decoder looks at: neither blank nor starting with the comment prefix. */
  predicate Kept(ln: Str, comment: Str) {
    !IsBlank(ln) && !(comment != [] && HasPrefix(ln, comment))
  }

  function FirstKeptFrom(lines: seq<Str>, comment: Str, i: nat): (k: nat)
    requires i <= |lines|
    ensures i <= k <= |lines|
    ensures k < |lines| ==> Kept(lines[k], comment)
    ensures forall j :: i <= j < k ==> !Kept(lines[j], comment)
    decreases |lines| - i
  {
    if i == |lines| || Kept(lines[i], comment) then i else FirstKeptFrom(lines, comment, i + 1)
  }

  /** Index of the first kept line (`|lines|` when there is none). */
  function FirstKept(lines: seq<Str>, comment: Str): (k: nat)
    ensures k <= |lines|
    ensures k < |lines| ==> Kept(lines[k], comment)
    ensures forall j :: 0 <= j < k ==> !Kept(lines[j], comment)
  {
    FirstKeptFrom(lines, comment, 0)
  }

  /** The trimmed form of every field. */
  function Trimmed(sl: seq<Str>): (tf: seq<Str>)
    ensures |tf| == |sl| && forall k :: 0 <= k < |sl| ==> tf[k] == Trim(sl[k])
    decreases |sl|
  {
    if sl == [] then [] else Trimmed(sl[..|sl| - 1]) + [Trim(sl[|sl| - 1])]
  }

  // ---------------------------------------------------------------------------
  // Heading test: all trimmed fields non-empty, not numeric, pairwise distinct.
  // `isNum` stands for "strconv.ParseFloat(s, 64) succeeds".

  predicate Named(f: Str, isNum: Str -> bool) {
    f != [] && !isNum(f)
  }

  /** The keys of the map csv.go fills with the non-empty, non-numeric fields
      (`uf` in PeekCSV, `qc` in ReadCSV), field by field. */
  function Names(tf: seq<Str>, isNum: Str -> bool): set<Str>
    decreases |tf|
  {
    if tf == [] then {}
    else
      var u, x := tf[..|tf| - 1], tf[|tf| - 1];
      Names(u, isNum) + (if Named(x, isNum) then {x} else {})
  }

  lemma NamesAppend(tf: seq<Str>, x: Str, isNum: Str -> bool)
    ensures Names(tf + [x], isNum) == Names(tf, isNum) + (if Named(x, isNum) then {x} else {})
  {
    assert (tf + [x])[..|tf|] == tf;
  }

  predicate IsHeadingRow(tf: seq<Str>, isNum: Str -> bool) {
    (forall k :: 0 <= k < |tf| ==> Named(tf[k], isNum)) &&
    (forall j, k :: 0 <= j < k < |tf| ==> tf[j] != tf[k])
  }

  /** The names are exactly the fields that are names. */
  lemma {:induction false} NamesMembers(tf: seq<Str>, isNum: Str -> bool)
    ensures forall y :: y in Names(tf, isNum) <==> exists k :: 0 <= k < |tf| && Named(tf[k], isNum) && tf[k] == y
    decreases |tf|
  {
    if tf != [] {
      var u, x := tf[..|tf| - 1], tf[|tf| - 1];
      NamesMembers(u, isNum);
      forall y | y in Names(tf, isNum)
        ensures exists k :: 0 <= k < |tf| && Named(tf[k], isNum) && tf[k] == y
      {
        if y in Names(u, isNum) {
          var k :| 0 <= k < |u| && Named(u[k], isNum) && u[k] == y;
          assert tf[k] == u[k];
        } else {
          assert tf[|tf| - 1] == y;
        }
      }
      forall y | exists k :: 0 <= k < |tf| && Named(tf[k], isNum) && tf[k] == y
        ensures y in Names(tf, isNum)
      {
        var k :| 0 <= k < |tf| && Named(tf[k], isNum) && tf[k] == y;
        if k < |u| {
          assert u[k] == tf[k];
        }
      }
    }
  }

  /** Counting the distinct names decides the heading: there are as many as fields exactly
      when every field is a name and no two fields are equal. */
  lemma {:induction false} HeadingCount(tf: seq<Str>, isNum: Str -> bool)
    ensures |Names(tf, isNum)| <= |tf|
    ensures |Names(tf, isNum)| == |tf| <==> IsHeadingRow(tf, isNum)
    decreases |tf|
  {
    if tf == [] {
      assert Names(tf, isNum) == {};
    } else {
      var u, x := tf[..|tf| - 1], tf[|tf| - 1];
      HeadingCount(u, isNum);
      if !Named(x, isNum) {
        assert !IsHeadingRow(tf, isNum);
      } else if x in Names(u, isNum) {
        NamesMembers(u, isNum);
        var k :| 0 <= k < |u| && Named(u[k], isNum) && u[k] == x;
        assert tf[k] == tf[|tf| - 1];
      } else {
        HeadingSnoc(tf, isNum);
      }
    }
  }

  lemma HeadingSnoc(tf: seq<Str>, isNum: Str -> bool)
    requires tf != [] && Named(tf[|tf| - 1], isNum)
    requires tf[|tf| - 1] !in Names(tf[..|tf| - 1], isNum)
    ensures IsHeadingRow(tf, isNum) <==> IsHeadingRow(tf[..|tf| - 1], isNum)
  {
    var u, x := tf[..|tf| - 1], tf[|tf| - 1];
    NamesMembers(u, isNum);
    if IsHeadingRow(u, isNum) {
      forall j | 0 <= j < |u| ensures tf[j] != x {
        assert tf[j] == u[j] && Named(u[j], isNum);
      }
      forall j, k | 0 <= j < k < |tf| ensures tf[j] != tf[k] {
        if k < |u| { assert tf[j] == u[j] && tf[k] == u[k]; }
      }
    }
    if IsHeadingRow(tf, isNum) {
      forall k | 0 <= k < |u| ensures Named(u[k], isNum) { assert u[k] == tf[k]; }
      forall j, k | 0 <= j < k < |u| ensures u[j] != u[k] { assert u[j] == tf[j] && u[k] == tf[k]; }
    }
  }

  /** One more field of the heading loops (PeekCSV's `uf`, ReadCSV's `qc`): its trim joins
      the trimmed prefix, and joins the names when it is one. */
  lemma HeadingStep(sl: seq<Str>, k: nat, split: seq<Str>, names: set<Str>, names': set<Str>, tf: Str, isNum: Str -> bool)
    requires k < |sl| && split == Trimmed(sl[..k]) && tf == Trim(sl[k]) && names == Names(split, isNum)
    requires names' == if !isNum(tf) && |tf| > 0 then names + {tf} else names
    ensures split + [tf] == Trimmed(sl[..k + 1]) && names' == Names(split + [tf], isNum)
  {
    NamesAppend(split, tf, isNum);
    TrimmedSnoc(sl, k);
  }

  lemma TrimmedSnoc(sl: seq<Str>, k: nat)
    requires k < |sl|
    ensures Trimmed(sl[..k + 1]) == Trimmed(sl[..k]) + [Trim(sl[k])]
  {
    assert sl[..k + 1][..k] == sl[..k];
  }
}

/** The body of `PeekCSV` (csv.go:107-166) once the file is open: from the file's lines it
    collects up to six preview lines, locks the comment prefix, picks the field separator
    and tells whether the first preview line looks like a heading. */
module Sniff {
  import opened Text
  import opened Fields
  import opened Common

  const PreviewRows: nat := 6
  /** A candidate separator is refused when it leaves a field longer than this. */
  const MaxFieldLen: nat := 256
  /** Comment prefix candidates, in the order they are tried. */
  const CommentSet: seq<Str> := ["#", "//", "'"]

  /** `erows`: exact below six data lines; otherwise extrapolated from the file size. */
  datatype RowEstimate = Exact(rows: nat) | Extrapolated

  /** `Digest` without its `md5` field. */
  datatype Digest = Digest(
    preview: seq<Str>,
    erows: RowEstimate,
    comment: Str,
    sep: Byte,
    split: seq<Str>,
    heading: bool)

  // ---------------------------------------------------------------------------
  // Comment prefix and preview

  function FirstNonBlank(lines: seq<Str>): (k: nat)
    ensures k <= |lines|
    ensures k < |lines| ==> !IsBlank(lines[k])
    ensures forall j :: 0 <= j < k ==> IsBlank(lines[j])
  {
    if lines == [] || !IsBlank(lines[0]) then 0 else 1 + FirstNonBlank(lines[1..])
  }

  /** The first of `ps` that `ln` starts with, or the empty string. */
  function FirstPrefix(ln: Str, ps: seq<Str>): (p: Str)
    ensures p == [] || (p in ps && HasPrefix(ln, p))
  {
    if ps == [] then []
    else if HasPrefix(ln, ps[0]) then ps[0]
    else FirstPrefix(ln, ps[1..])
  }

  /** The comment prefix: decided by the first non-blank line alone. */
  function LockedComment(lines: seq<Str>): Str {
    var k := FirstNonBlank(lines);
    if k < |lines| then FirstPrefix(lines[k], CommentSet) else []
  }

  /** The data lines among the first `n` lines, for a comment prefix. */
  function DataLines(lines: seq<Str>, comment: Str, n: nat): seq<Str>
    requires n <= |lines|
  {
    if n == 0 then []
    else DataLines(lines, comment, n - 1) + (if Kept(lines[n - 1], comment) then [lines[n - 1]] else [])
  }

  function Take(s: seq<Str>, n: nat): seq<Str> {
    if |s| <= n then s else s[..n]
  }

  /** The data lines of the whole file under its locked comment prefix. */
  function AllData(lines: seq<Str>): seq<Str> {
    DataLines(lines, LockedComment(lines), |lines|)
  }

  /** What PeekCSV keeps as its preview: the first six data lines. */
  function Preview(lines: seq<Str>): seq<Str> {
    Take(AllData(lines), PreviewRows)
  }

  lemma {:induction false} DataLinesPrefix(lines: seq<Str>, comment: Str, i: nat, n: nat)
    requires i <= n <= |lines|
    ensures DataLines(lines, comment, i) <= DataLines(lines, comment, n)
    decreases n - i
  {
    if i < n {
      DataLinesPrefix(lines, comment, i, n - 1);
    }
  }

  lemma {:induction false} DataLinesKept(lines: seq<Str>, comment: Str, n: nat)
    requires n <= |lines|
    ensures forall k :: 0 <= k < |DataLines(lines, comment, n)| ==> Kept(DataLines(lines, comment, n)[k], comment)
  {
    if n > 0 {
      DataLinesKept(lines, comment, n - 1);
    }
  }

  lemma {:induction false} DataLinesOfBlanks(lines: seq<Str>, comment: Str, n: nat)
    requires n <= |lines|
    requires forall j :: 0 <= j < n ==> IsBlank(lines[j])
    ensures DataLines(lines, comment, n) == []
  {
    if n > 0 {
      DataLinesOfBlanks(lines, comment, n - 1);
    }
  }

  /** The preview holds at most six lines, none blank and none starting with the comment
      prefix. */
  lemma PreviewLines(lines: seq<Str>)
    ensures |Preview(lines)| <= PreviewRows
    ensures forall k :: 0 <= k < |Preview(lines)| ==>
      !IsBlank(Preview(lines)[k]) && !(LockedComment(lines) != [] && HasPrefix(Preview(lines)[k], LockedComment(lines)))
  {
    DataLinesKept(lines, LockedComment(lines), |lines|);
  }

  /** The comment prefix is `#`, `//` or `'`, one the first non-blank line starts with;
      that line is then not data. Conversely, a first non-blank line that starts with one
      of the three locks that one. */
  lemma CommentLocking(lines: seq<Str>)
    ensures var c, k := LockedComment(lines), FirstNonBlank(lines);
      (c == [] || c in CommentSet) &&
      (c != [] ==> k < |lines| && HasPrefix(lines[k], c) && !Kept(lines[k], c))
    ensures var c, k := LockedComment(lines), FirstNonBlank(lines);
      forall p :: p in CommentSet && k < |lines| && HasPrefix(lines[k], p) ==> c == p
  {
    var k := FirstNonBlank(lines);
    forall p | p in CommentSet && k < |lines| && HasPrefix(lines[k], p)
      ensures LockedComment(lines) == p
    {
      FirstPrefixOf(lines[k], p);
    }
  }

  /** The three comment marks start with different bytes, so a line starts with at most
      one of them, and that one is the first the line starts with. */
  lemma FirstPrefixOf(ln: Str, p: Str)
    requires p in CommentSet && HasPrefix(ln, p)
    ensures FirstPrefix(ln, CommentSet) == p
  {
    assert ln[0] == p[0];
    assert CommentSet[0] == "#" && CommentSet[1..] == ["//", "'"];
    assert ["//", "'"][0] == "//" && ["//", "'"][1..] == ["'"];
    assert ["'"][0] == "'" && ["'"][1..] == [];
    if p != "#" {
      assert !HasPrefix(ln, "#") by { assert "#"[0] != ln[0]; }
      assert FirstPrefix(ln, CommentSet) == FirstPrefix(ln, ["//", "'"]);
      if p != "//" {
        assert !HasPrefix(ln, "//") by { assert "//"[0] != ln[0]; }
        assert FirstPrefix(ln, ["//", "'"]) == FirstPrefix(ln, ["'"]);
      }
    }
  }


  /** With no prefix locked, the first non-blank line is the first preview line. */
  lemma FirstLineIsData(lines: seq<Str>)
    requires LockedComment(lines) == [] && FirstNonBlank(lines) < |lines|
    ensures Preview(lines) != [] && Preview(lines)[0] == lines[FirstNonBlank(lines)]
  {
    var k := FirstNonBlank(lines);
    var d := AllData(lines);
    assert d != [] && d[0] == lines[k] by {
      assert Kept(lines[k], []);
      FirstDataLine(lines, [], k);
    }
    TakeFirst(d, PreviewRows);
  }

  lemma TakeFirst(s: seq<Str>, n: nat)
    requires s != [] && n > 0
    ensures Take(s, n) != [] && Take(s, n)[0] == s[0]
  {
  }

  lemma FirstDataLine(lines: seq<Str>, comment: Str, k: nat)
    requires k < |lines| && Kept(lines[k], comment)
    requires forall j :: 0 <= j < k ==> IsBlank(lines[j])
    ensures DataLines(lines, comment, |lines|) != [] && DataLines(lines, comment, |lines|)[0] == lines[k]
  {
    assert DataLines(lines, comment, k) == [] by { DataLinesOfBlanks(lines, comment, k); }
    assert DataLines(lines, comment, k + 1) == [lines[k]];
    DataLinesPrefix(lines, comment, k + 1, |lines|);
  }

  /** The preview loop (csv.go:107-127): skips blank lines, locks the comment prefix from
      the first non-blank line (skipping that line when it matches), then skips lines with
      that prefix, and stops after six data lines. */
  method CollectPreview(lines: seq<Str>) returns (preview: seq<Str>, comment: Str)
    ensures comment == LockedComment(lines)
    ensures preview == Preview(lines)
  {
    var row, i := -1, 0;
    preview, comment := [], [];
    ghost var f := FirstNonBlank(lines);
    ghost var locked := LockedComment(lines);
    label getLine:
    while row < PreviewRows as int && i < |lines|
      invariant 0 <= i <= |lines|
      invariant row <= PreviewRows as int
      invariant row < 0 <==> i <= f
      invariant row < 0 ==> comment == [] && preview == []
      invariant row >= 0 ==> comment == locked && row == |preview|
      invariant preview == DataLines(lines, locked, i)
    {
      var ln := lines[i];
      i := i + 1;
      if IsBlank(ln) {
        // blank line
      } else if comment != [] && HasPrefix(ln, comment) {
        // comment line
      } else {
        if row < 0 {
          assert i - 1 == f;
          row := 0;
          for k := 0 to |CommentSet|
            invariant comment == []
            invariant FirstPrefix(ln, CommentSet) == FirstPrefix(ln, CommentSet[k..])
          {
            assert CommentSet[k..][1..] == CommentSet[k + 1..];
            if HasPrefix(ln, CommentSet[k]) {
              comment := CommentSet[k];
              continue getLine;
            }
          }
          // no prefix matched: the line falls through to be counted as data
        }
        row := row + 1;
        preview := preview + [ln];
      }
    }
    if row == PreviewRows as int {
      DataLinesPrefix(lines, locked, i, |lines|);
    }
  }

  // ---------------------------------------------------------------------------
  // Separator

  /** No field of `ln` split at `r` is longer than `MaxFieldLen` bytes. */
  predicate ShortFields(ln: Str, r: Byte) {
    forall k :: 0 <= k < |Split(ln, r)| ==> |Split(ln, r)[k]| <= MaxFieldLen
  }

  /** Candidate `r` splits every preview line into the same number (more than one) of
      fields, none longer than the cap. */
  predicate Qualifies(preview: seq<Str>, r: Byte) {
    preview != [] && Count(preview[0], r) > 1 &&
    forall j :: 0 <= j < |preview| ==> Count(preview[j], r) == Count(preview[0], r) && ShortFields(preview[j], r)
  }

  /** Candidate `j` qualifies with `max` fields; every qualifying candidate before it gives
      fewer fields, and every one after it (up to `n`) gives no more. */
  predicate BestUpTo(preview: seq<Str>, j: nat, max: nat, n: nat)
    requires j < |SepSet| && n <= |SepSet|
  {
    Qualifies(preview, SepSet[j]) && max == Count(preview[0], SepSet[j]) &&
    (forall k :: 0 <= k < j ==> Fewer(preview, k, max)) &&
    (forall k :: j < k < n ==> NoMore(preview, k, max))
  }

  /** Candidate `k` does not qualify, or gives fewer than `max` fields. */
  predicate Fewer(preview: seq<Str>, k: nat, max: nat)
    requires k < |SepSet|
  {
    Qualifies(preview, SepSet[k]) ==> Count(preview[0], SepSet[k]) < max
  }

  /** Candidate `k` does not qualify, or gives at most `max` fields. */
  predicate NoMore(preview: seq<Str>, k: nat, max: nat)
    requires k < |SepSet|
  {
    Qualifies(preview, SepSet[k]) ==> Count(preview[0], SepSet[k]) <= max
  }

  /** `sep` is the earliest candidate giving the most fields among those that qualify. */
  ghost predicate BestSeparator(preview: seq<Str>, sep: Byte, max: nat) {
    exists j :: 0 <= j < |SepSet| && SepSet[j] == sep && BestUpTo(preview, j, max, |SepSet|)
  }

  /** The candidate kept after trying the first `n` candidates, as an index into `SepSet`
      (-1 for none) and the field count `max` it gives (1 for none): a candidate replaces
      the one kept so far only when it qualifies with strictly more fields. */
  function Choice(preview: seq<Str>, n: nat): (best: (int, nat))
    requires n <= |SepSet|
    ensures -1 <= best.0 < n && best.1 >= 1
    ensures best.0 < 0 ==> best.1 == 1
    ensures best.0 >= 0 ==> Qualifies(preview, SepSet[best.0]) && best.1 == Count(preview[0], SepSet[best.0])
  {
    if n == 0 then (-1, 1)
    else
      var b, r := Choice(preview, n - 1), SepSet[n - 1];
      if Qualifies(preview, r) && Count(preview[0], r) > b.1 then (n - 1, Count(preview[0], r)) else b
  }

  /** The kept candidate is the best one: none is kept exactly when none qualifies, and
      otherwise it is the earliest giving the most fields. */
  lemma ChoiceIsBest(preview: seq<Str>, n: nat)
    requires n <= |SepSet|
    ensures Choice(preview, n).0 < 0 <==> forall k :: 0 <= k < n ==> !Qualifies(preview, SepSet[k])
    ensures Choice(preview, n).0 >= 0 ==> BestUpTo(preview, Choice(preview, n).0, Choice(preview, n).1, n)
  {
    ChoiceNone(preview, n);
    ChoiceBest(preview, n);
  }

  lemma {:induction false} ChoiceNone(preview: seq<Str>, n: nat)
    requires n <= |SepSet|
    ensures Choice(preview, n).0 < 0 <==> forall k :: 0 <= k < n ==> !Qualifies(preview, SepSet[k])
  {
    if n > 0 {
      ChoiceNone(preview, n - 1);
    }
  }

  lemma {:induction false} ChoiceBest(preview: seq<Str>, n: nat)
    requires n <= |SepSet|
    ensures Choice(preview, n).0 >= 0 ==> BestUpTo(preview, Choice(preview, n).0, Choice(preview, n).1, n)
  {
    if n > 0 {
      ChoiceBest(preview, n - 1);
      ChoiceNone(preview, n - 1);
      var b, r := Choice(preview, n - 1), SepSet[n - 1];
      if Qualifies(preview, r) && Count(preview[0], r) > b.1 {
        var c := Count(preview[0], r);
        assert Choice(preview, n) == (n - 1, c);
        forall k | 0 <= k < n - 1
          ensures Fewer(preview, k, c)
        {
          if b.0 < 0 {
            assert !Qualifies(preview, SepSet[k]);
          } else if k < b.0 {
            assert Fewer(preview, k, b.1);
          } else if b.0 < k {
            assert NoMore(preview, k, b.1);
          }
        }
        assert BestUpTo(preview, n - 1, c, n);
      } else {
        assert Choice(preview, n) == b;
        if b.0 >= 0 {
          assert NoMore(preview, n - 1, b.1);
          assert BestUpTo(preview, b.0, b.1, n);
        }
      }
    }
  }

  /** The `getSep` loop (csv.go:138-153). A later candidate replaces an earlier one only
      with strictly more fields, since a split of `max` fields or fewer is skipped. */
  method ChooseSeparator(preview: seq<Str>) returns (sep: Byte, max: nat)
    requires preview != []
    ensures var b := Choice(preview, |SepSet|);
      max == b.1 && sep == if b.0 < 0 then NoSep else SepSet[b.0]
  {
    max, sep := 1, NoSep;
    ghost var chosen: int := -1;
    label getSep:
    for i := 0 to |SepSet|
      invariant (chosen, max) == Choice(preview, i)
      invariant sep == if chosen < 0 then NoSep else SepSet[chosen]
    {
      var r := SepSet[i];
      var c := 0;
      for j := 0 to |preview|
        invariant j == 0 ==> c == 0
        invariant j > 0 ==> c == Count(preview[0], r) && c > max
        invariant forall jj :: 0 <= jj < j ==> Count(preview[jj], r) == c && ShortFields(preview[jj], r)
      {
        var sl := SplitCSV(preview[j], r);
        if |sl| <= max || (|sl| != c && c > 0) {
          assert !(Qualifies(preview, r) && Count(preview[0], r) > max);
          continue getSep;
        }
        for k := 0 to |sl|
          invariant forall kk :: 0 <= kk < k ==> |sl[kk]| <= MaxFieldLen
        {
          if |sl[k]| > MaxFieldLen {
            assert !ShortFields(preview[j], r);
            continue getSep;
          }
        }
        c := |sl|;
      }
      assert Qualifies(preview, r);
      max, sep := c, r;
      chosen := i;
    }
  }

  /** What the choice means: no separator exactly when no candidate qualifies, and
      otherwise the earliest qualifying candidate with the most fields, every preview line
      splitting into that many fields, none over the length cap. */
  lemma SeparatorChoice(preview: seq<Str>)
    requires preview != []
    ensures var b := Choice(preview, |SepSet|);
      (b.0 < 0 <==> forall k :: 0 <= k < |SepSet| ==> !Qualifies(preview, SepSet[k])) &&
      (b.0 >= 0 ==> b.1 > 1 && BestSeparator(preview, SepSet[b.0], b.1)) &&
      (b.0 >= 0 ==> forall j :: 0 <= j < |preview| ==> Count(preview[j], SepSet[b.0]) == b.1 && ShortFields(preview[j], SepSet[b.0]))
  {
    ChoiceIsBest(preview, |SepSet|);
  }

  // ---------------------------------------------------------------------------
  // Heading

  /** The heading step (csv.go:154-163): `split` is the trimmed fields of the first preview
      line, and the line is a heading when `uf` collects as many names as there are fields,
      that is when every field is non-empty, non-numeric and unlike every other. */
  method DetectHeading(sl: seq<Str>, max: nat, isNum: Str -> bool) returns (split: seq<Str>, heading: bool)
    requires max == |sl|
    ensures split == Trimmed(sl)
    ensures heading <==> IsHeadingRow(split, isNum)
  {
    var uf: map<Str, nat> := map[];
    split := [];
    for k := 0 to |sl|
      invariant split == Trimmed(sl[..k])
      invariant uf.Keys == Names(split, isNum)
    {
      var tf := Trim(sl[k]);
      ghost var uf0 := uf;
      if !isNum(tf) && |tf| > 0 {
        var n := if tf in uf then uf[tf] else 0;
        KeysAdd(uf, tf, n + 1);
        uf := uf[tf := n + 1];
      }
      HeadingStep(sl, k, split, uf0.Keys, uf.Keys, tf, isNum);
      split := split + [tf];
    }
    assert split == Trimmed(sl) by { assert sl[..|sl|] == sl; }
    assert |uf| == max <==> IsHeadingRow(split, isNum) by { HeadingCount(split, isNum); }
    heading := |uf| == max;
  }

  // ---------------------------------------------------------------------------
  // PeekCSV

  /** PeekCSV on the lines of a file. */
  method PeekCSV(lines: seq<Str>, isNum: Str -> bool) returns (r: Result<Digest>)
    ensures r.Fail? <==> AllData(lines) == []
    ensures r.Fail? ==> r.error == NoData
    ensures r.Ok? ==> r.value.comment == LockedComment(lines) && r.value.preview == Preview(lines)
    ensures r.Ok? && |AllData(lines)| < PreviewRows ==> r.value.erows == Exact(|AllData(lines)|)
    ensures r.Ok? && |AllData(lines)| >= PreviewRows ==> r.value.erows == Extrapolated
    ensures r.Ok? && r.value.sep == NoSep ==>
      (forall k :: 0 <= k < |SepSet| ==> !Qualifies(r.value.preview, SepSet[k])) &&
      r.value.split == [] && !r.value.heading
    ensures r.Ok? && r.value.sep != NoSep ==>
      BestSeparator(r.value.preview, r.value.sep, |r.value.split|) &&
      r.value.split == Trimmed(Split(r.value.preview[0], r.value.sep)) &&
      (r.value.heading <==> IsHeadingRow(r.value.split, isNum))
  {
    var preview, comment := CollectPreview(lines);
    var row := |preview|;
    if row < 1 {
      return Fail(NoData);
    }
    var erows := if row < PreviewRows then Exact(row) else Extrapolated;
    var sep, max := ChooseSeparator(preview);
    SeparatorChoice(preview);
    var split: seq<Str>, heading := [], false;
    if sep > NoSep {
      var sl := SplitCSV(preview[0], sep);
      split, heading := DetectHeading(sl, max, isNum);
    }
    r := Ok(Digest(preview, erows, comment, sep, split, heading));
  }
}

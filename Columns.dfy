/** What ReadCSV decides on its first kept line (csv.go:259-301): the separator, when the
    caller leaves it to be inferred, and the column map `vcols` that names the fields of
    every later line, found in a heading or adopted from the caller. */
module Columns {
  import opened Text
  import opened Fields
  import opened Common

  // ---------------------------------------------------------------------------
  // Separator inference (csv.go:259-265)

  /** The inference loop after the first `n` candidates, as (index into `SepSet`, field
      count); -1 before any. A candidate replaces the one kept only with strictly more
      fields, so the earliest of the widest wins. */
  function Widest(ln: Str, n: nat): (w: (int, nat))
    requires n <= |SepSet|
    ensures n == 0 ==> w == (-1, 0)
    ensures n > 0 ==> 0 <= w.0 < n && w.1 == Count(ln, SepSet[w.0])
  {
    if n == 0 then (-1, 0)
    else
      var p := Widest(ln, n - 1);
      var c := Count(ln, SepSet[n - 1]);
      if c > p.1 then (n - 1, c) else p
  }

  lemma {:induction false} WidestIsBest(ln: Str, n: nat)
    requires 0 < n <= |SepSet|
    ensures var w := Widest(ln, n);
      (forall j :: 0 <= j < n ==> Count(ln, SepSet[j]) <= w.1) &&
      (forall j :: 0 <= j < w.0 ==> Count(ln, SepSet[j]) < w.1)
  {
    if n > 1 {
      WidestIsBest(ln, n - 1);
    }
  }

  /** The separator inferred from a line. */
  function AutoSep(ln: Str): Byte {
    SepSet[Widest(ln, |SepSet|).0]
  }

  /** The inferred separator is a candidate that cuts the line into the most fields, and
      the first candidate that does. */
  lemma AutoSepIsWidest(ln: Str)
    ensures AutoSep(ln) in SepSet && AutoSep(ln) != NoSep
    ensures forall r :: r in SepSet ==> Count(ln, r) <= Count(ln, AutoSep(ln))
    ensures forall j :: 0 <= j < |SepSet| && SepSet[j] == AutoSep(ln) ==>
      forall i :: 0 <= i < j ==> Count(ln, SepSet[i]) < Count(ln, AutoSep(ln))
  {
    WidestIsBest(ln, |SepSet|);
    var w := Widest(ln, |SepSet|);
    forall r | r in SepSet ensures Count(ln, r) <= w.1 {
      var j :| 0 <= j < |SepSet| && SepSet[j] == r;
    }
    forall j | 0 <= j < |SepSet| && SepSet[j] == AutoSep(ln) ensures j == w.0 {
    }
  }

  /** The loop of csv.go:260-264, starting from no separator and width 0. */
  method AutoSeparator(ln: Str) returns (sep: Byte, wid: nat)
    ensures sep == AutoSep(ln) && wid == Count(ln, sep)
  {
    sep, wid := NoSep, 0;
    ghost var best := -1;
    for i := 0 to |SepSet|
      invariant (best, wid) == Widest(ln, i)
      invariant best < 0 ==> sep == NoSep
      invariant best >= 0 ==> best < |SepSet| && sep == SepSet[best]
    {
      var r := SepSet[i];
      var fs := SplitCSV(ln, r);
      if |fs| > wid {
        wid, sep := |fs|, r;
        best := i;
      }
    }
  }

  // ---------------------------------------------------------------------------
  // The caller's column map (csv.go:268-275)

  /** The caller's `map[string]int` from column name to 1-based field position, as its
      entries in the order the loop visits them. */
  type CallerMap = seq<(Str, int)>

  /** An entry the loop keeps: a name that is not blank after trimming, a positive
      position. */
  predicate Valid(e: (Str, int)) {
    Trim(e.0) != [] && e.1 > 0
  }

  /** `sc`: trimmed name to position; of two entries with the same trimmed name, the one
      visited later wins. */
  function CallerNames(cols: CallerMap): map<Str, int>
    decreases |cols|
  {
    if cols == [] then map[]
    else
      var sc, e := CallerNames(cols[..|cols| - 1]), cols[|cols| - 1];
      if Valid(e) then sc[Trim(e.0) := e.1] else sc
  }

  /** The keys of `uc`: the positions of the kept entries. */
  function CallerIndices(cols: CallerMap): set<int>
    decreases |cols|
  {
    if cols == [] then {}
    else
      var uc, e := CallerIndices(cols[..|cols| - 1]), cols[|cols| - 1];
      if Valid(e) then uc + {e.1} else uc
  }

  /** `mc`: the largest position of a kept entry (0 when there is none). */
  function MaxIndex(cols: CallerMap): nat
    decreases |cols|
  {
    if cols == [] then 0
    else
      var mc, e := MaxIndex(cols[..|cols| - 1]), cols[|cols| - 1];
      if Valid(e) && e.1 > mc then e.1 else mc
  }

  /** Entry `j` is kept, trims to `c`, and no later kept entry trims to `c`. */
  predicate LastEntry(cols: CallerMap, c: Str, j: int) {
    0 <= j < |cols| && Valid(cols[j]) && Trim(cols[j].0) == c &&
    forall i :: j < i < |cols| && Valid(cols[i]) ==> Trim(cols[i].0) != c
  }

  /** A name is in `sc` only when some kept entry trims to it, and then it holds the
      position of the last such entry. */
  lemma {:induction false} CallerNameOf(cols: CallerMap, c: Str)
    requires c in CallerNames(cols)
    ensures exists j :: LastEntry(cols, c, j) && CallerNames(cols)[c] == cols[j].1
    decreases |cols|
  {
    var u, e := cols[..|cols| - 1], cols[|cols| - 1];
    if Valid(e) && Trim(e.0) == c {
      assert LastEntry(cols, c, |cols| - 1);
    } else {
      CallerNameOf(u, c);
      var j :| LastEntry(u, c, j) && CallerNames(u)[c] == u[j].1;
      LastEntryWiden(cols, c, j);
    }
  }

  lemma LastEntryWiden(cols: CallerMap, c: Str, j: int)
    requires cols != [] && LastEntry(cols[..|cols| - 1], c, j)
    requires !(Valid(cols[|cols| - 1]) && Trim(cols[|cols| - 1].0) == c)
    ensures LastEntry(cols, c, j)
  {
    var u := cols[..|cols| - 1];
    assert cols[j] == u[j];
    forall i | j < i < |cols| && Valid(cols[i]) ensures Trim(cols[i].0) != c {
      if i < |u| {
        assert cols[i] == u[i];
      }
    }
  }

  /** Every kept entry's trimmed name is in `sc`. */
  lemma {:induction false} CallerNameIn(cols: CallerMap, j: int)
    requires 0 <= j < |cols| && Valid(cols[j])
    ensures Trim(cols[j].0) in CallerNames(cols)
    decreases |cols|
  {
    var u := cols[..|cols| - 1];
    if j < |u| {
      assert u[j] == cols[j];
      CallerNameIn(u, j);
    }
  }

  /** A name is in `sc` exactly when some kept entry trims to it, and then it holds the
      position of the last such entry. */
  lemma CallerNamesMembers(cols: CallerMap)
    ensures forall c :: c in CallerNames(cols) <==>
      exists j :: 0 <= j < |cols| && Valid(cols[j]) && Trim(cols[j].0) == c
    ensures forall c :: c in CallerNames(cols) ==>
      exists j :: LastEntry(cols, c, j) && CallerNames(cols)[c] == cols[j].1
  {
    forall c | c in CallerNames(cols)
      ensures exists j :: LastEntry(cols, c, j) && CallerNames(cols)[c] == cols[j].1
    {
      CallerNameOf(cols, c);
    }
    forall j | 0 <= j < |cols| && Valid(cols[j]) ensures Trim(cols[j].0) in CallerNames(cols) {
      CallerNameIn(cols, j);
    }
  }

  /** `uc` holds exactly the positions of the kept entries. */
  lemma {:induction false} CallerIndicesMembers(cols: CallerMap)
    ensures forall i :: i in CallerIndices(cols) <==>
      exists j :: 0 <= j < |cols| && Valid(cols[j]) && cols[j].1 == i
    decreases |cols|
  {
    if cols != [] {
      var u := cols[..|cols| - 1];
      CallerIndicesMembers(u);
      forall i | i in CallerIndices(cols)
        ensures exists j :: 0 <= j < |cols| && Valid(cols[j]) && cols[j].1 == i
      {
        if i in CallerIndices(u) {
          var j :| 0 <= j < |u| && Valid(u[j]) && u[j].1 == i;
          assert cols[j] == u[j];
        }
      }
      forall i | exists j :: 0 <= j < |cols| && Valid(cols[j]) && cols[j].1 == i
        ensures i in CallerIndices(cols)
      {
        var j :| 0 <= j < |cols| && Valid(cols[j]) && cols[j].1 == i;
        if j < |u| {
          assert u[j] == cols[j];
        }
      }
    }
  }

  /** `mc` bounds every kept position and is one of them unless there is none. */
  lemma {:induction false} MaxIndexBounds(cols: CallerMap)
    ensures forall j :: 0 <= j < |cols| && Valid(cols[j]) ==> cols[j].1 <= MaxIndex(cols)
    ensures MaxIndex(cols) == 0 || exists j :: 0 <= j < |cols| && Valid(cols[j]) && cols[j].1 == MaxIndex(cols)
    decreases |cols|
  {
    if cols != [] {
      var u := cols[..|cols| - 1];
      MaxIndexBounds(u);
      forall j | 0 <= j < |cols| && Valid(cols[j]) ensures cols[j].1 <= MaxIndex(cols) {
        if j < |u| {
          assert cols[j] == u[j];
        }
      }
      if MaxIndex(cols) != 0 && MaxIndex(cols) == MaxIndex(u) {
        var j :| 0 <= j < |u| && Valid(u[j]) && u[j].1 == MaxIndex(u);
        assert cols[j] == u[j];
      }
    }
  }

  /** Every position in `sc` is a kept position, at most `mc`. */
  lemma CallerPositions(cols: CallerMap)
    ensures forall c :: c in CallerNames(cols) ==>
      0 < CallerNames(cols)[c] <= MaxIndex(cols) && CallerNames(cols)[c] in CallerIndices(cols)
  {
    CallerNamesMembers(cols);
    CallerIndicesMembers(cols);
    MaxIndexBounds(cols);
    forall c | c in CallerNames(cols)
      ensures 0 < CallerNames(cols)[c] <= MaxIndex(cols) && CallerNames(cols)[c] in CallerIndices(cols)
    {
      var j :| LastEntry(cols, c, j) && CallerNames(cols)[c] == cols[j].1;
    }
  }

  // ---------------------------------------------------------------------------
  // The heading loop (csv.go:276-285)

  /** A trimmed field the loop records in `vcols`: not empty, and a caller name unless
      there is no caller map (`sc[c] > 0`, a missing key reading as 0). */
  predicate Wanted(c: Str, sc: map<Str, int>) {
    c != [] && (|sc| == 0 || (c in sc && sc[c] > 0))
  }

  /** `vcols` after the loop: each wanted trimmed field with its 1-based position, a later
      position overwriting an earlier one. */
  function Discovered(sl: seq<Str>, sc: map<Str, int>): map<Str, int>
    decreases |sl|
  {
    if sl == [] then map[]
    else
      var v, c := Discovered(sl[..|sl| - 1], sc), Trim(sl[|sl| - 1]);
      if Wanted(c, sc) then v[c := |sl|] else v
  }

  /** Field `i` (1-based) trims to `c`, and no later field does. */
  predicate LastField(sl: seq<Str>, c: Str, i: int) {
    1 <= i <= |sl| && Trim(sl[i - 1]) == c && forall k :: i <= k < |sl| ==> Trim(sl[k]) != c
  }

  lemma {:induction false} DiscoveredAt(sl: seq<Str>, sc: map<Str, int>, c: Str)
    requires c in Discovered(sl, sc)
    ensures Wanted(c, sc) && LastField(sl, c, Discovered(sl, sc)[c])
    decreases |sl|
  {
    var u := sl[..|sl| - 1];
    if c != Trim(sl[|sl| - 1]) || !Wanted(c, sc) {
      DiscoveredAt(u, sc, c);
      var i := Discovered(u, sc)[c];
      assert sl[i - 1] == u[i - 1];
      forall k | i <= k < |sl| ensures Trim(sl[k]) != c {
        if k < |u| {
          assert sl[k] == u[k];
        }
      }
    }
  }

  lemma {:induction false} DiscoveredIn(sl: seq<Str>, sc: map<Str, int>, k: nat)
    requires k < |sl| && Wanted(Trim(sl[k]), sc)
    ensures Trim(sl[k]) in Discovered(sl, sc)
    decreases |sl|
  {
    var u := sl[..|sl| - 1];
    if k < |u| {
      assert sl[k] == u[k];
      DiscoveredIn(u, sc, k);
    }
  }

  /** `vcols` maps each wanted field to the last position holding it, and misses none. */
  lemma DiscoveredMembers(sl: seq<Str>, sc: map<Str, int>)
    ensures forall c :: c in Discovered(sl, sc) ==> Wanted(c, sc) && LastField(sl, c, Discovered(sl, sc)[c])
    ensures forall k :: 0 <= k < |sl| && Wanted(Trim(sl[k]), sc) ==> Trim(sl[k]) in Discovered(sl, sc)
  {
    forall c | c in Discovered(sl, sc) ensures Wanted(c, sc) && LastField(sl, c, Discovered(sl, sc)[c]) {
      DiscoveredAt(sl, sc, c);
    }
    forall k | 0 <= k < |sl| && Wanted(Trim(sl[k]), sc) ensures Trim(sl[k]) in Discovered(sl, sc) {
      DiscoveredIn(sl, sc, k);
    }
  }

  lemma DiscoveredSnoc(sl: seq<Str>, k: nat, sc: map<Str, int>)
    requires k < |sl|
    ensures Discovered(sl[..k + 1], sc) ==
      if Wanted(Trim(sl[k]), sc) then Discovered(sl[..k], sc)[Trim(sl[k]) := k + 1] else Discovered(sl[..k], sc)
  {
    assert sl[..k + 1][..k] == sl[..k];
  }

  // ---------------------------------------------------------------------------
  // The decision (csv.go:286-301)

  /** What the first kept line settles: a heading line naming the columns (not itself
      data), a caller map adopted for a headerless file (the line is read again as data),
      or an error. */
  datatype Resolution =
    | Heading(vcols: map<Str, int>)
    | Adopted(vcols: map<Str, int>)
    | Refused(error: Error)

  /** The switch of csv.go:286-301, case by case, on the fields `sl` of the first kept line. */
  function Resolve(sl: seq<Str>, cols: CallerMap, isNum: Str -> bool): Resolution {
    var sc, wid := CallerNames(cols), |sl|;
    var vcols, named := Discovered(sl, sc), |Names(Trimmed(sl), isNum)|;
    if |sc| == 0 && named == wid then Heading(vcols)
    else if |sc| == 0 then Refused(NoHeading)
    else if |vcols| == |sc| then Heading(vcols)
    else if |vcols| > 0 then Refused(MissingColumns)
    else if named == wid || MaxIndex(cols) > wid then Refused(IncompatibleMap)
    else if |CallerIndices(cols)| < |sc| then Refused(AmbiguousMap)
    else Adopted(sc)
  }

  /** The first-line case of ReadCSV: the loops over the caller map and the fields, then
      the switch. */
  method ResolveColumns(sl: seq<Str>, cols: CallerMap, isNum: Str -> bool) returns (r: Resolution)
    ensures r == Resolve(sl, cols, isNum)
  {
    var uc: map<int, nat> := map[];
    var sc: map<Str, int> := map[];
    var mc: nat := 0;
    for j := 0 to |cols|
      invariant sc == CallerNames(cols[..j])
      invariant uc.Keys == CallerIndices(cols[..j])
      invariant mc == MaxIndex(cols[..j])
    {
      var c, i := Trim(cols[j].0), cols[j].1;
      assert cols[..j + 1][..j] == cols[..j];
      if c != [] && i > 0 {
        sc := sc[c := i];
        var n := if i in uc then uc[i] else 0;
        KeysAdd(uc, i, n + 1);
        uc := uc[i := n + 1];
        if i > mc {
          mc := i;
        }
      }
    }
    assert cols[..|cols|] == cols;
    var vcols: map<Str, int> := map[];
    var qc: map<Str, int> := map[];
    for i := 0 to |sl|
      invariant vcols == Discovered(sl[..i], sc)
      invariant qc.Keys == Names(Trimmed(sl[..i]), isNum)
    {
      var c := Trim(sl[i]);
      ghost var q0 := qc;
      DiscoveredSnoc(sl, i, sc);
      if c != [] {
        if |sc| == 0 || (c in sc && sc[c] > 0) {
          vcols := vcols[c := i + 1];
        }
        if !isNum(c) {
          KeysAdd(qc, c, i + 1);
          qc := qc[c := i + 1];
        }
      }
      HeadingStep(sl, i, Trimmed(sl[..i]), q0.Keys, qc.Keys, c, isNum);
    }
    assert sl[..|sl|] == sl;
    var wid := |sl|;
    if |sc| == 0 && |qc.Keys| == wid {
      r := Heading(vcols);
    } else if |sc| == 0 {
      r := Refused(NoHeading);
    } else if |vcols| == |sc| {
      r := Heading(vcols);
    } else if |vcols| > 0 {
      r := Refused(MissingColumns);
    } else if |qc.Keys| == wid || mc > wid {
      r := Refused(IncompatibleMap);
    } else if |uc.Keys| < |sc| {
      r := Refused(AmbiguousMap);
    } else {
      r := Adopted(sc);
    }
  }
  // ---------------------------------------------------------------------------
  // What the decision promises

  /** A field of `sl` trims to `c`. */
  predicate Appears(c: Str, sl: seq<Str>) {
    exists k :: 0 <= k < |sl| && Trim(sl[k]) == c
  }

  /** Whatever the first line settles, every column of `vcols` names a field of that line
      (so the later `sl[i-1]` lies within every line of its width), and there is at least
      one column. */
  lemma ResolvePositions(sl: seq<Str>, cols: CallerMap, isNum: Str -> bool)
    requires sl != []
    ensures var r := Resolve(sl, cols, isNum);
      !r.Refused? ==> r.vcols != map[] && forall c :: c in r.vcols ==> 1 <= r.vcols[c] <= |sl|
    ensures var r := Resolve(sl, cols, isNum);
      r.Heading? ==> forall c :: c in r.vcols ==> Trim(sl[r.vcols[c] - 1]) == c
  {
    var sc, tf := CallerNames(cols), Trimmed(sl);
    var r := Resolve(sl, cols, isNum);
    DiscoveredMembers(sl, sc);
    CallerPositions(cols);
    if r.Heading? && |sc| == 0 {
      var names := Names(tf, isNum);
      assert |names| == |sl| > 0;
      var y :| y in names;
      NamesMembers(tf, isNum);
      var k :| 0 <= k < |tf| && Named(tf[k], isNum) && tf[k] == y;
      assert Wanted(Trim(sl[k]), sc);
    }
  }

  /** Without a caller map the first kept line must be a heading: every trimmed field a
      distinct non-numeric name. It then names each field by its own position; otherwise
      the decoder reports that there is no heading. */
  lemma ResolveWithoutMap(sl: seq<Str>, cols: CallerMap, isNum: Str -> bool)
    requires |CallerNames(cols)| == 0
    ensures var r := Resolve(sl, cols, isNum);
      (r.Heading? <==> IsHeadingRow(Trimmed(sl), isNum)) && (!r.Heading? ==> r == Refused(NoHeading))
    ensures var r := Resolve(sl, cols, isNum);
      r.Heading? ==> forall k :: 0 <= k < |sl| ==> Trim(sl[k]) in r.vcols && r.vcols[Trim(sl[k])] == k + 1
  {
    var sc, tf := CallerNames(cols), Trimmed(sl);
    HeadingCount(tf, isNum);
    if IsHeadingRow(tf, isNum) {
      DiscoveredMembers(sl, sc);
      var v := Discovered(sl, sc);
      forall k | 0 <= k < |sl| ensures Trim(sl[k]) in v && v[Trim(sl[k])] == k + 1 {
        assert Named(tf[k], isNum);
        var i := v[Trim(sl[k])];
        assert LastField(sl, Trim(sl[k]), i);
        assert tf[i - 1] == tf[k];
        assert i - 1 == k;
      }
    }
  }

  /** The columns a heading yields with a caller map are the caller names present among
      the fields. */
  lemma DiscoveredWithMap(sl: seq<Str>, cols: CallerMap)
    requires |CallerNames(cols)| > 0
    ensures var sc := CallerNames(cols);
      Discovered(sl, sc).Keys == set c | c in sc && Appears(c, sl)
  {
    var sc := CallerNames(cols);
    DiscoveredMembers(sl, sc);
    CallerPositions(cols);
    CallerNamesMembers(cols);
    forall c | c in sc && Appears(c, sl) ensures c in Discovered(sl, sc) {
      var k :| 0 <= k < |sl| && Trim(sl[k]) == c;
      var j :| 0 <= j < |cols| && Valid(cols[j]) && Trim(cols[j].0) == c;
      assert Wanted(Trim(sl[k]), sc);
    }
    forall c | c in Discovered(sl, sc) ensures c in sc && Appears(c, sl) {
      assert LastField(sl, c, Discovered(sl, sc)[c]);
    }
  }

  lemma SubsetCount<T>(a: set<T>, b: set<T>)
    requires a <= b
    ensures |a| == |b| <==> a == b
  {
    assert b == a + (b - a);
    if |a| == |b| {
      assert |b - a| == 0;
    }
  }

  /** With a caller map, the case the first kept line falls in: a heading when it holds
      every caller name; missing columns when it holds some; otherwise the caller map is
      adopted for a headerless file, unless the line looks like a heading or is narrower
      than a caller position (incompatible), or two caller names share a position
      (ambiguous, as far as counting distinct positions tells). */
  lemma ResolveWithMap(sl: seq<Str>, cols: CallerMap, isNum: Str -> bool)
    requires |CallerNames(cols)| > 0
    ensures var sc, r := CallerNames(cols), Resolve(sl, cols, isNum);
      (r.Heading? <==> forall c :: c in sc ==> Appears(c, sl)) &&
      (r.Heading? ==> r.vcols.Keys == sc.Keys)
    ensures var sc, r := CallerNames(cols), Resolve(sl, cols, isNum);
      r == Refused(MissingColumns) <==>
        (exists c :: c in sc && Appears(c, sl)) && (exists c :: c in sc && !Appears(c, sl))
    ensures var sc, r := CallerNames(cols), Resolve(sl, cols, isNum);
      var none := forall c :: c in sc ==> !Appears(c, sl);
      (r == Refused(IncompatibleMap) <==>
         none && (IsHeadingRow(Trimmed(sl), isNum) || MaxIndex(cols) > |sl|)) &&
      (r == Refused(AmbiguousMap) <==>
         none && !IsHeadingRow(Trimmed(sl), isNum) && MaxIndex(cols) <= |sl| && |CallerIndices(cols)| < |sc|) &&
      (r.Adopted? <==>
         none && !IsHeadingRow(Trimmed(sl), isNum) && MaxIndex(cols) <= |sl| && |CallerIndices(cols)| >= |sc|)
    ensures var r := Resolve(sl, cols, isNum);
      r.Adopted? ==> r.vcols == CallerNames(cols) && forall k :: 0 <= k < |sl| ==> Trim(sl[k]) !in r.vcols
    ensures Resolve(sl, cols, isNum) != Refused(NoHeading)
  {
    var sc := CallerNames(cols);
    var v := Discovered(sl, sc);
    DiscoveredWithMap(sl, cols);
    SubsetCount(v.Keys, sc.Keys);
    HeadingCount(Trimmed(sl), isNum);
    assert |v| == |v.Keys|;
    if (exists c :: c in sc && Appears(c, sl)) {
      var c :| c in sc && Appears(c, sl);
      assert c in v.Keys;
    }
    if v.Keys == {} {
      forall k | 0 <= k < |sl| ensures Trim(sl[k]) !in sc {
        if Trim(sl[k]) in sc {
          assert Appears(Trim(sl[k]), sl);
        }
      }
    }
  }

  // ---------------------------------------------------------------------------
  // Shared positions in an adopted map

  /** No two kept entries trim to the same name. */
  predicate NoCollision(cols: CallerMap) {
    forall i, j :: 0 <= i < j < |cols| && Valid(cols[i]) && Valid(cols[j]) ==> Trim(cols[i].0) != Trim(cols[j].0)
  }

  predicate Injective<K, V(==)>(m: map<K, V>) {
    forall a, b :: a in m && b in m && a != b ==> m[a] != m[b]
  }

  /** A map has no more distinct values than keys, and as many exactly when no two keys
      share a value. */
  lemma {:induction false} ValueCount<K, V>(m: map<K, V>)
    ensures |m.Values| <= |m.Keys|
    ensures |m.Values| == |m.Keys| <==> Injective(m)
    decreases |m|
  {
    if m == map[] {
      assert m.Values == {};
    } else {
      var k :| k in m;
      var m' := m - {k};
      ValueCount(m');
      assert m'.Keys == m.Keys - {k};
      ValuesRemove(m, k);
      if m[k] in m'.Values {
        SharedValue(m, k);
      } else {
        FreshValue(m, k);
      }
    }
  }

  lemma ValuesRemove<K, V>(m: map<K, V>, k: K)
    requires k in m
    ensures m.Values == (m - {k}).Values + {m[k]}
  {
    var m' := m - {k};
    forall v | v in m.Values ensures v in m'.Values + {m[k]} {
      var a :| a in m && m[a] == v;
      if a != k {
        assert a in m' && m'[a] == v;
      }
    }
    forall v | v in m'.Values ensures v in m.Values {
      var a :| a in m' && m'[a] == v;
      assert m[a] == v;
    }
  }

  lemma SharedValue<K, V>(m: map<K, V>, k: K)
    requires k in m && m[k] in (m - {k}).Values
    ensures !Injective(m)
  {
    var m' := m - {k};
    var k' :| k' in m' && m'[k'] == m[k];
    assert k' in m && k' != k && m[k'] == m[k];
  }

  lemma FreshValue<K, V>(m: map<K, V>, k: K)
    requires k in m && m[k] !in (m - {k}).Values
    ensures Injective(m) <==> Injective(m - {k})
  {
    var m' := m - {k};
    if Injective(m') {
      forall a, b | a in m && b in m && a != b ensures m[a] != m[b] {
        if a != k && b != k {
          assert m'[a] == m[a] && m'[b] == m[b];
        } else if a == k {
          assert m[b] == m'[b] && m'[b] in m'.Values;
        } else {
          assert m[a] == m'[a] && m'[a] in m'.Values;
        }
      }
    }
    if Injective(m) {
      forall a, b | a in m' && b in m' && a != b ensures m'[a] != m'[b] {
        assert m[a] == m'[a] && m[b] == m'[b];
      }
    }
  }

  /** When no two kept entries trim to the same name, `uc` holds exactly the positions of
      `sc`. */
  lemma PositionsOfNames(cols: CallerMap)
    requires NoCollision(cols)
    ensures CallerNames(cols).Values == CallerIndices(cols)
  {
    var sc := CallerNames(cols);
    CallerPositions(cols);
    CallerIndicesMembers(cols);
    CallerNamesMembers(cols);
    forall i | i in CallerIndices(cols) ensures i in sc.Values {
      var j :| 0 <= j < |cols| && Valid(cols[j]) && cols[j].1 == i;
      var c := Trim(cols[j].0);
      var j' :| LastEntry(cols, c, j') && sc[c] == cols[j'].1;
      assert j == j';
    }
  }

  /** When no two kept entries trim to the same name, the map is refused as ambiguous
      exactly when two caller names share a position, so an adopted map sends every name a
      field of its own. */
  lemma AmbiguityExact(sl: seq<Str>, cols: CallerMap, isNum: Str -> bool)
    requires NoCollision(cols)
    ensures |CallerIndices(cols)| < |CallerNames(cols)| <==> !Injective(CallerNames(cols))
    ensures Resolve(sl, cols, isNum).Adopted? ==> Injective(Resolve(sl, cols, isNum).vcols)
  {
    PositionsOfNames(cols);
    ValueCount(CallerNames(cols));
  }

  /** Counting distinct positions misses a shared one when two caller names trim to the
      same text: here, on a line of two numbers, `a` and `b` are both adopted for the
      first field. */
  lemma CollidingNamesShareColumn(isNum: Str -> bool)
    requires isNum("1") && isNum("2")
    ensures Resolve(["1", "2"], [(" a", 2), ("a", 1), ("b", 1)], isNum) == Adopted(map["a" := 1, "b" := 1])
  {
    CollidingTallies([(" a", 2), ("a", 1), ("b", 1)]);
    NumbersNotWanted(map["a" := 1, "b" := 1]);
    NumbersUnnamed(isNum);
  }

  /** Neither number is one of the wanted names. */
  lemma NumbersNotWanted(sc: map<Str, int>)
    requires sc == map["a" := 1, "b" := 1]
    ensures Discovered(["1", "2"], sc) == map[]
  {
    TrimDigits();
    var one: seq<Str> := ["1"];
    assert ["1", "2"][..1] == one && one[..0] == [];
    assert Discovered(one, sc) == map[];
  }

  /** A line of two numbers names no column. */
  lemma NumbersUnnamed(isNum: Str -> bool)
    requires isNum("1") && isNum("2")
    ensures Names(Trimmed(["1", "2"]), isNum) == {}
  {
    TrimDigits();
    var two: seq<Str> := ["1", "2"];
    var one: seq<Str> := ["1"];
    assert Trimmed(two) == two;
    assert two[..1] == one && one[..0] == [];
    assert Names(one, isNum) == {};
  }

  lemma TrimDigits()
    ensures Trim("1") == "1" && Trim("2") == "2"
  {
  }

  lemma CollidingTallies(cols: CallerMap)
    requires cols == [(" a", 2), ("a", 1), ("b", 1)]
    ensures CallerNames(cols) == map["a" := 1, "b" := 1]
    ensures CallerIndices(cols) == {1, 2} && MaxIndex(cols) == 2
  {
    var c1: CallerMap := [(" a", 2)];
    var c2: CallerMap := c1 + [("a", 1)];
    assert cols[..2] == c2 && c2[..1] == c1 && c1[..0] == [];
    assert " a"[1..] == "a";
    assert Trim(" a") == "a" && Trim("a") == "a" && Trim("b") == "b";
    assert CallerNames(c2) == map["a" := 1];
    assert CallerIndices(c1) == {2} && MaxIndex(c1) == 2;
    assert CallerIndices(c2) == {2, 1} && MaxIndex(c2) == 2;
  }
}

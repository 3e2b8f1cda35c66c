/** Byte strings and the few `strings`/`strconv` helpers csv.go relies on. */
module Text {

  /** One byte of a line, written as the character with that code. Lines are handled byte
      by byte: `len`, slicing, `strings.Trim` and `strings.HasPrefix` count bytes, and every
      byte of a multi-byte UTF-8 sequence is above '~', so it is discarded exactly as the
      rune it belongs to would be. Codes above 255 never occur in a line; every operation
      here treats them as it treats any code above '~'. */
  type Byte = char

  /** A Go string, as its bytes. */
  type Str = seq<Byte>

  /** `strings.TrimLeft(s, " ")`: leading blanks removed. */
  function TrimLeft(s: Str): Str
    decreases |s|
  {
    if s != [] && s[0] == ' ' then TrimLeft(s[1..]) else s
  }

  /** Trailing blanks removed (the right half of `strings.Trim(s, " ")`). */
  function TrimRight(s: Str): Str
    decreases |s|
  {
    if s != [] && s[|s| - 1] == ' ' then TrimRight(s[..|s| - 1]) else s
  }

  /** `strings.Trim(s, " ")`. */
  function Trim(s: Str): Str {
    TrimRight(TrimLeft(s))
  }

  /** A line of blanks only (tabs are not blanks). */
  predicate IsBlank(s: Str) {
    forall k :: 0 <= k < |s| ==> s[k] == ' '
  }

  /** `TrimLeft` keeps a suffix that does not start with a blank, and cuts only blanks. */
  lemma {:induction false} TrimLeftShape(s: Str)
    ensures var r := TrimLeft(s);
      |r| <= |s| && r == s[|s| - |r|..] && (r == [] || r[0] != ' ') &&
      forall k :: 0 <= k < |s| - |r| ==> s[k] == ' '
    decreases |s|
  {
    if s != [] && s[0] == ' ' {
      TrimLeftShape(s[1..]);
    }
  }

  /** `TrimRight` keeps a prefix that does not end with a blank, and cuts only blanks. */
  lemma {:induction false} TrimRightShape(s: Str)
    ensures var r := TrimRight(s);
      |r| <= |s| && r == s[..|r|] && (r == [] || r[|r| - 1] != ' ') &&
      forall k :: |r| <= k < |s| ==> s[k] == ' '
    decreases |s|
  {
    if s != [] && s[|s| - 1] == ' ' {
      TrimRightShape(s[..|s| - 1]);
    }
  }

  /** csv.go tests blankness as `len(strings.TrimLeft(ln, " ")) == 0`; that is `IsBlank`. */
  lemma BlankIsTrimmedAway(s: Str)
    ensures IsBlank(s) <==> TrimLeft(s) == []
  {
    TrimLeftShape(s);
  }

  /** Trimming leaves no blank at either end, and leaves nothing exactly when `s` is all
      blanks. */
  lemma TrimShape(s: Str)
    ensures |Trim(s)| <= |s|
    ensures Trim(s) == [] || (Trim(s)[0] != ' ' && Trim(s)[|Trim(s)| - 1] != ' ')
    ensures Trim(s) == [] <==> IsBlank(s)
  {
    var t := TrimLeft(s);
    TrimLeftShape(s);
    TrimRightShape(t);
    if TrimRight(t) != [] {
      assert TrimRight(t)[0] == t[0];
    }
  }

  /** `strings.HasPrefix(s, p)`. */
  predicate HasPrefix(s: Str, p: Str) {
    |p| <= |s| && s[..|p|] == p
  }

  predicate IsDigit(c: Byte) {
    '0' <= c <= '9'
  }

  function DigitChar(d: nat): (c: Byte)
    requires d < 10
    ensures IsDigit(c) && c as int - '0' as int == d
  {
    ('0' as int + d) as char
  }

  /** `strconv.Itoa(n)` for `n >= 0`: decimal digits, no leading zero. */
  function Decimal(n: nat): (r: Str)
    ensures r != [] && forall k :: 0 <= k < |r| ==> IsDigit(r[k])
    ensures r[0] == '0' ==> n == 0 && r == "0"
    decreases n
  {
    if n < 10 then [DigitChar(n)] else Decimal(n / 10) + [DigitChar(n % 10)]
  }

  /** The number a string of decimal digits denotes. */
  function DigitsValue(s: Str): nat
    requires forall k :: 0 <= k < |s| ==> IsDigit(s[k])
    decreases |s|
  {
    if s == [] then 0
    else
      assert IsDigit(s[|s| - 1]);
      10 * DigitsValue(s[..|s| - 1]) + (s[|s| - 1] as int - '0' as int)
  }

  /** Reading back `Decimal(n)` gives `n`: the `~line` text names exactly one line. */
  lemma {:induction false} DecimalValue(n: nat)
    ensures DigitsValue(Decimal(n)) == n
    decreases n
  {
    var r := Decimal(n);
    if n >= 10 {
      DecimalValue(n / 10);
      assert r[..|r| - 1] == Decimal(n / 10);
    }
  }

  /** Distinct line numbers never share a `~line` text. */
  lemma DecimalInjective(m: nat, n: nat)
    requires Decimal(m) == Decimal(n)
    ensures m == n
  {
    DecimalValue(m);
    DecimalValue(n);
  }
}

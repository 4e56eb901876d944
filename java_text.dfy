/**
 * The few `java.lang.String` / `Integer` operations the modelled code relies on, stated over
 * Dafny strings (sequences of Unicode scalar values).
 */
module JavaText {
  import opened Wrappers

  /** The UTF-16 code units of a string, as Java stores it (supplementary characters take two). */
  function Utf16Units(s: string): (r: seq<int>)
    ensures |r| >= |s|
    ensures forall k :: 0 <= k < |r| ==> 0 <= r[k] < 0x1_0000
  {
    if s == [] then []
    else
      var c := s[0] as int;
      var head := if c < 0x1_0000 then [c]
                  else [0xD800 + (c - 0x1_0000) / 0x400, 0xDC00 + (c - 0x1_0000) % 0x400];
      head + Utf16Units(s[1..])
  }

  /** `String.length()`: the number of UTF-16 code units. */
  function Length(s: string): (r: nat)
    ensures r >= |s|
    ensures (forall k :: 0 <= k < |s| ==> (s[k] as int) < 0x1_0000) ==> r == |s|
  {
    LengthOfBmp(s);
    |Utf16Units(s)|
  }

  lemma {:induction false} LengthOfBmp(s: string)
    ensures (forall k :: 0 <= k < |s| ==> (s[k] as int) < 0x1_0000) ==> |Utf16Units(s)| == |s|
  {
    if s != [] {
      LengthOfBmp(s[1..]);
    }
  }

  /** `String.codePoints()`: one code point per character. */
  function CodePoints(s: string): (r: seq<int>)
    ensures |r| == |s|
    ensures forall k :: 0 <= k < |s| ==> r[k] == s[k] as int
  {
    seq(|s|, k requires 0 <= k < |s| => s[k] as int)
  }

  /** The sign of `Integer.compare(x, y)`. */
  function CompareInt(x: int, y: int): (r: int)
    ensures r < 0 <==> x < y
    ensures r == 0 <==> x == y
    ensures r > 0 <==> x > y
  {
    if x < y then -1 else if x == y then 0 else 1
  }

  /** The sign of a lexicographic comparison that ranks a proper prefix first. */
  function CompareSeq(u: seq<int>, v: seq<int>): (r: int)
    ensures r == 0 <==> u == v
    ensures -1 <= r <= 1
  {
    if u == [] && v == [] then 0
    else if u == [] then -1
    else if v == [] then 1
    else if u[0] != v[0] then CompareInt(u[0], v[0])
    else
      var r := CompareSeq(u[1..], v[1..]);
      assert r == 0 ==> u == v by {
        if r == 0 { assert u == [u[0]] + u[1..] && v == [v[0]] + v[1..]; }
      }
      r
  }

  /** The sign of `String.compareTo`: lexicographic over UTF-16 code units. */
  function CompareTo(s: string, t: string): (r: int)
    ensures -1 <= r <= 1
    ensures Utf16Units(s) == Utf16Units(t) <==> r == 0
  {
    CompareSeq(Utf16Units(s), Utf16Units(t))
  }

  lemma {:induction false} CompareSeqAntisymmetric(u: seq<int>, v: seq<int>)
    ensures CompareSeq(u, v) == -CompareSeq(v, u)
  {
    if u != [] && v != [] && u[0] == v[0] {
      CompareSeqAntisymmetric(u[1..], v[1..]);
    }
  }

  lemma {:induction false} CompareSeqTransitive(u: seq<int>, v: seq<int>, w: seq<int>)
    requires CompareSeq(u, v) < 0 && CompareSeq(v, w) < 0
    ensures CompareSeq(u, w) < 0
  {
    if u != [] && v != [] && w != [] && u[0] == v[0] && v[0] == w[0] {
      CompareSeqTransitive(u[1..], v[1..], w[1..]);
    }
  }

  /** How many runs of ten decimal digits (general category Nd) the Basic Multilingual Plane holds. */
  const DIGIT_RUNS := 37

  /**
   * The digit zero of the `i`-th run, in ascending order: ASCII, Arabic-Indic, extended
   * Arabic-Indic, N'Ko, Devanagari, ..., Meetei Mayek, fullwidth. `parseInt` reads one UTF-16
   * unit at a time, so digits outside this plane never count.
   */
  function DecimalZero(i: nat): int
    requires i < DIGIT_RUNS
  {
    match i
    case 0 => 0x0030 case 1 => 0x0660 case 2 => 0x06F0 case 3 => 0x07C0 case 4 => 0x0966
    case 5 => 0x09E6 case 6 => 0x0A66 case 7 => 0x0AE6 case 8 => 0x0B66 case 9 => 0x0BE6
    case 10 => 0x0C66 case 11 => 0x0CE6 case 12 => 0x0D66 case 13 => 0x0DE6 case 14 => 0x0E50
    case 15 => 0x0ED0 case 16 => 0x0F20 case 17 => 0x1040 case 18 => 0x1090 case 19 => 0x17E0
    case 20 => 0x1810 case 21 => 0x1946 case 22 => 0x19D0 case 23 => 0x1A80 case 24 => 0x1A90
    case 25 => 0x1B50 case 26 => 0x1BB0 case 27 => 0x1C40 case 28 => 0x1C50 case 29 => 0xA620
    case 30 => 0xA8D0 case 31 => 0xA900 case 32 => 0xA9D0 case 33 => 0xA9F0 case 34 => 0xAA50
    case 35 => 0xABF0 case _ => 0xFF10
  }

  /** `c` lies in the `i`-th run. */
  predicate InRun(c: int, i: nat)
    requires i < DIGIT_RUNS
  {
    DecimalZero(i) <= c < DecimalZero(i) + 10
  }

  /** The zero of the first run from the `i`-th on that holds `c`, if any does. */
  function ZeroFrom(c: int, i: nat): (r: Option<int>)
    requires i <= DIGIT_RUNS
    ensures r.Some? ==> r.value <= c < r.value + 10
    ensures r.None? ==> forall k :: i <= k < DIGIT_RUNS ==> !InRun(c, k)
    decreases DIGIT_RUNS - i
  {
    if i == DIGIT_RUNS then None
    else if InRun(c, i) then Some(DecimalZero(i))
    else ZeroFrom(c, i + 1)
  }

  /** `Character.digit(c, 10) >= 0`: `c` is a decimal digit of some script. */
  predicate IsDigit(c: char) { ZeroFrom(c as int, 0).Some? }

  /** `Character.digit(c, 10)`: the digit's value, counted from its script's zero. */
  function DigitValue(c: char): (d: int)
    requires IsDigit(c)
    ensures 0 <= d < 10
  {
    c as int - ZeroFrom(c as int, 0).value
  }

  /** The runs ascend and do not overlap. */
  lemma RunsAscend(k: nat)
    requires k + 1 < DIGIT_RUNS
    ensures DecimalZero(k) + 10 <= DecimalZero(k + 1)
  {
  }

  lemma {:induction false} RunsBelow(k: nat, i: nat)
    requires k < i < DIGIT_RUNS
    ensures DecimalZero(k) + 10 <= DecimalZero(i)
    decreases i - k
  {
    RunsAscend(k);
    if k + 1 < i {
      RunsBelow(k + 1, i);
    }
  }

  /** A character of the `i`-th run is a digit whose value counts from that run's zero. */
  lemma {:induction false} DigitOfRun(c: char, i: nat)
    requires i < DIGIT_RUNS && InRun(c as int, i)
    ensures IsDigit(c) && DigitValue(c) == c as int - DecimalZero(i)
  {
    FoundFrom(c as int, 0, i);
  }

  lemma {:induction false} FoundFrom(c: int, j: nat, i: nat)
    requires j <= i < DIGIT_RUNS && InRun(c, i)
    ensures ZeroFrom(c, j) == Some(DecimalZero(i))
    decreases i - j
  {
    if j < i {
      RunsBelow(j, i);
      FoundFrom(c, j + 1, i);
    }
  }

  /** Every script's digits read as the same values: fullwidth "１２" parses as ASCII "12" does. */
  lemma ParseIntReadsOtherScripts()
    ensures ParseInt("１２") == Ok(12)
    ensures ParseInt("-١٠") == Ok(-10)
  {
    TwoDigits('１', '２', 36);
    TwoDigits('١', '٠', 1);
    assert "-١٠"[1..] == ['١', '٠'];
  }

  /** Two digits of one run read as a two-digit number. */
  lemma TwoDigits(c: char, d: char, i: nat)
    requires i < DIGIT_RUNS && InRun(c as int, i) && InRun(d as int, i)
    ensures forall k :: 0 <= k < 2 ==> IsDigit([c, d][k])
    ensures DigitsValue([c, d]) == (c as int - DecimalZero(i)) * 10 + (d as int - DecimalZero(i))
    ensures ParseInt([c, d]) == Ok((c as int - DecimalZero(i)) * 10 + (d as int - DecimalZero(i)))
  {
    DigitOfRun(c, i);
    DigitOfRun(d, i);
    var s := [c, d];
    assert s[..1] == [c] && [c][..0] == [];
    assert DigitsValue([c]) == DigitValue(c);
  }

  /** The value of a run of decimal digits, most significant first. */
  function DigitsValue(s: string): (r: nat)
    requires forall k :: 0 <= k < |s| ==> IsDigit(s[k])
  {
    if s == [] then 0 else DigitsValue(s[..|s| - 1]) * 10 + DigitValue(s[|s| - 1])
  }

  function DigitChar(d: int): (c: char)
    requires 0 <= d < 10
    ensures '0' <= c <= '9'
    ensures IsDigit(c) && DigitValue(c) == d
  {
    var c := ('0' as int + d) as char;
    DigitOfRun(c, 0);
    c
  }

  /** `String.valueOf(int)` / `%d` for a non-negative value: its decimal digits, no leading zero. */
  function NatToString(n: nat): (r: string)
    ensures |r| > 0
    ensures forall k :: 0 <= k < |r| ==> '0' <= r[k] <= '9' && IsDigit(r[k])
    ensures DigitsValue(r) == n
    ensures r[0] != '0' || n == 0
  {
    if n < 10 then [DigitChar(n)]
    else
      var r := NatToString(n / 10) + [DigitChar(n % 10)];
      assert r[..|r| - 1] == NatToString(n / 10);
      r
  }

  /**
   * `Integer.parseInt(s)`: an optional '+' or '-' sign followed by at least one decimal digit,
   * whose value lies in Java's int range; anything else is NumberFormat.
   */
  function ParseInt(s: string): (r: Result<int>)
    ensures r.Ok? ==> INT_MIN <= r.value <= INT_MAX
    ensures r.Err? ==> r.error == NumberFormat
    ensures s == [] ==> r.Err?
  {
    if s == [] then Err(NumberFormat)
    else
      var negative := s[0] == '-';
      var digits := if s[0] == '-' || s[0] == '+' then s[1..] else s;
      if digits == [] || exists k :: 0 <= k < |digits| && !IsDigit(digits[k]) then Err(NumberFormat)
      else
        var magnitude: int := DigitsValue(digits);
        var v := if negative then -magnitude else magnitude;
        if v < INT_MIN || INT_MAX < v then Err(NumberFormat) else Ok(v)
  }

  /** `parseInt` reads back what `valueOf` wrote, within the int range. */
  lemma ParseIntOfNatToString(n: nat)
    requires n <= INT_MAX
    ensures ParseInt(NatToString(n)) == Ok(n)
  {
  }

  /** `Integer.toString`. */
  function IntToString(n: int): string {
    if n < 0 then "-" + NatToString(-n) else NatToString(n)
  }

  /** Characters `String.trim()` strips: every code point up to and including U+0020. */
  predicate IsTrimmed(c: char) { c as int <= 0x20 }

  /** `String.trim()`: drops leading and trailing characters up to U+0020. */
  function Trim(s: string): (r: string)
    ensures |r| <= |s|
    ensures r != [] ==> !IsTrimmed(r[0]) && !IsTrimmed(r[|r| - 1])
    ensures (s == [] || (!IsTrimmed(s[0]) && !IsTrimmed(s[|s| - 1]))) ==> r == s
  {
    TrimEnd(TrimStart(s))
  }

  /** What `trim` returns is a substring of its argument. */
  lemma TrimIsSubstring(s: string)
    ensures exists i, j :: 0 <= i <= j <= |s| && Trim(s) == s[i..j]
  {
    var t := TrimStart(s);
    var r := TrimEnd(t);
    var i := |s| - |t|;
    SliceOfSuffix(s, i, |r|);
    assert r == s[i..i + |r|];
  }

  lemma SliceOfSuffix<T>(s: seq<T>, i: int, n: int)
    requires 0 <= i <= |s| && 0 <= n <= |s| - i
    ensures s[i..][..n] == s[i..i + n]
  {
  }

  function TrimStart(s: string): (r: string)
    ensures |r| <= |s| && r == s[|s| - |r|..]
    ensures r != [] ==> !IsTrimmed(r[0])
    ensures s != [] && !IsTrimmed(s[0]) ==> r == s
    ensures r == [] ==> forall k :: 0 <= k < |s| ==> IsTrimmed(s[k])
  {
    if s == [] || !IsTrimmed(s[0]) then s else TrimStart(s[1..])
  }

  function TrimEnd(s: string): (r: string)
    ensures |r| <= |s| && r == s[..|r|]
    ensures r != [] ==> !IsTrimmed(r[|r| - 1])
    ensures s != [] && !IsTrimmed(s[|s| - 1]) ==> r == s
    ensures s != [] && !IsTrimmed(s[0]) ==> r != [] && r[0] == s[0]
  {
    if s == [] || !IsTrimmed(s[|s| - 1]) then s else TrimEnd(s[..|s| - 1])
  }

  predicate StartsWith(s: string, prefix: string)
  {
    |prefix| <= |s| && s[..|prefix|] == prefix
  }

  predicate EndsWith(s: string, suffix: string)
  {
    |suffix| <= |s| && s[|s| - |suffix|..] == suffix
  }

  /** `String.join(sep, parts)`. */
  function Join(parts: seq<string>, sep: string): (r: string)
    ensures parts == [] ==> r == ""
    ensures |parts| == 1 ==> r == parts[0]
  {
    if parts == [] then ""
    else if |parts| == 1 then parts[0]
    else parts[0] + sep + Join(parts[1..], sep)
  }
}

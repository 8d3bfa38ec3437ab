/**
 * Java strings as sequences of UTF-16 code units, and the handful of
 * `java.lang.String`, `Integer` and `Long` operations the login server
 * relies on: trim, lower-casing, decimal printing and parsing, splitting
 * on a literal character or on runs of white space, and literal replace.
 */
module JavaText {
  import opened Wire

  /** A UTF-16 code unit: one `char` of a Java string. */
  type JChar = c: int | 0 <= c < 0x1_0000

  type JString = seq<JChar>

  const SPACE: JChar := 0x20
  const ZERO_DIGIT: JChar := 0x30
  const MINUS: JChar := 0x2D
  const PLUS: JChar := 0x2B

  /** A Dafny string literal as a Java string (characters above U+FFFF never occur in the model's literals). */
  function Lit(s: string): (r: JString)
    ensures |r| == |s|
  {
    seq(|s|, i requires 0 <= i < |s| => if (s[i] as int) < 0x1_0000 then s[i] as int else 0xFFFD)
  }

  // ---------------------------------------------------------------- trim

  function TrimStart(s: JString): JString
  {
    if |s| > 0 && s[0] <= SPACE then TrimStart(s[1..]) else s
  }

  function TrimEnd(s: JString): JString
  {
    if |s| > 0 && s[|s| - 1] <= SPACE then TrimEnd(s[..|s| - 1]) else s
  }

  /**
   * `String.trim()`: drops every code unit up to U+0020 from both ends.
   * The result is the slice between the first and the last unit above U+0020.
   */
  function Trim(s: JString): (r: JString)
    ensures exists i, j ::
      0 <= i <= j <= |s| && r == s[i..j] && (forall k :: 0 <= k < i ==> s[k] <= SPACE) && (forall k :: j <= k < |s| ==> s[k] <= SPACE)
    ensures |r| > 0 ==> r[0] > SPACE && r[|r| - 1] > SPACE
  {
    TrimSlice(s);
    TrimEnd(TrimStart(s))
  }

  lemma TrimSlice(s: JString)
    ensures exists i, j ::
      0 <= i <= j <= |s| && TrimEnd(TrimStart(s)) == s[i..j] && (forall k :: 0 <= k < i ==> s[k] <= SPACE) && (forall k :: j <= k < |s| ==> s[k] <= SPACE)
    ensures var r := TrimEnd(TrimStart(s)); |r| > 0 ==> r[0] > SPACE && r[|r| - 1] > SPACE
  {
    var i := TrimStartSlice(s);
    var t := s[i..];
    var j := TrimEndSlice(t);
    assert t[..j] == s[i..i + j];
    forall k | i + j <= k < |s| ensures s[k] <= SPACE {
      assert s[k] == t[k - i];
    }
    if j > 0 {
      assert TrimEnd(t)[0] == t[0];
    }
  }

  /** A string with no white space at either end is its own trim. */
  lemma TrimmedFixed(t: JString)
    requires |t| == 0 || (t[0] > SPACE && t[|t| - 1] > SPACE)
    ensures Trim(t) == t
  {
    assert TrimStart(t) == t;
    assert TrimEnd(t) == t;
  }

  /** Trimming is idempotent, and lower-casing a trimmed string leaves it trimmed. */
  lemma TrimNormal(s: JString)
    ensures Trim(Trim(s)) == Trim(s)
    ensures Trim(Lower(Trim(s))) == Lower(Trim(s))
  {
    var t := Trim(s);
    TrimmedFixed(t);
    TrimmedFixed(Lower(t));
  }

  lemma {:induction false} TrimStartSlice(s: JString) returns (i: nat)
    ensures i <= |s| && TrimStart(s) == s[i..] && (forall k :: 0 <= k < i ==> s[k] <= SPACE)
    ensures |TrimStart(s)| > 0 ==> TrimStart(s)[0] > SPACE
  {
    if |s| > 0 && s[0] <= SPACE {
      var i' := TrimStartSlice(s[1..]);
      assert s[1..][i'..] == s[i' + 1..];
      forall k | 0 <= k < i' + 1 ensures s[k] <= SPACE {
        if k > 0 { assert s[k] == s[1..][k - 1]; }
      }
      i := i' + 1;
    } else {
      i := 0;
    }
  }

  lemma {:induction false} TrimEndSlice(s: JString) returns (j: nat)
    ensures j <= |s| && TrimEnd(s) == s[..j] && (forall k :: j <= k < |s| ==> s[k] <= SPACE)
    ensures |TrimEnd(s)| > 0 ==> TrimEnd(s)[|TrimEnd(s)| - 1] > SPACE
  {
    if |s| > 0 && s[|s| - 1] <= SPACE {
      var p := s[..|s| - 1];
      j := TrimEndSlice(p);
      assert p[..j] == s[..j];
      forall k | j <= k < |s| ensures s[k] <= SPACE {
        if k < |s| - 1 { assert s[k] == p[k]; }
      }
    } else {
      j := |s|;
    }
  }

  // ---------------------------------------------------------------- case

  function LowerChar(c: JChar): JChar
  {
    if 0x41 <= c <= 0x5A then c + 0x20 else c
  }

  /** `String.toLowerCase()` restricted to ASCII letters. */
  function Lower(s: JString): (r: JString)
    ensures |r| == |s|
    ensures forall i :: 0 <= i < |s| ==> r[i] == LowerChar(s[i])
  {
    seq(|s|, i requires 0 <= i < |s| => LowerChar(s[i]))
  }

  /** Lower-casing twice is lower-casing once. */
  lemma LowerIdempotent(s: JString)
    ensures Lower(Lower(s)) == Lower(s)
  {
  }

  // ---------------------------------------------------------------- decimal numbers

  /** `c` is one of the ten digits that start at `zero`. */
  predicate InRun(c: JChar, zero: int) { zero <= c <= zero + 9 }

  /**
   * The zero of the run of ten decimal digits (general category Nd) that
   * holds `c`, or -1: the runs of the Basic Multilingual Plane in the
   * Unicode 6.2 tables of Java 8, from ASCII and Arabic-Indic through the
   * Indic and South-East Asian scripts to the full-width digits.
   */
  function DigitZero(c: JChar): (z: int)
    ensures z == -1 || InRun(c, z)
  {
    if InRun(c, 0x0030) then 0x0030
    else if InRun(c, 0x0660) then 0x0660
    else if InRun(c, 0x06F0) then 0x06F0
    else if InRun(c, 0x07C0) then 0x07C0
    else if InRun(c, 0x0966) then 0x0966
    else if InRun(c, 0x09E6) then 0x09E6
    else if InRun(c, 0x0A66) then 0x0A66
    else if InRun(c, 0x0AE6) then 0x0AE6
    else if InRun(c, 0x0B66) then 0x0B66
    else if InRun(c, 0x0BE6) then 0x0BE6
    else if InRun(c, 0x0C66) then 0x0C66
    else if InRun(c, 0x0CE6) then 0x0CE6
    else if InRun(c, 0x0D66) then 0x0D66
    else if InRun(c, 0x0E50) then 0x0E50
    else if InRun(c, 0x0ED0) then 0x0ED0
    else if InRun(c, 0x0F20) then 0x0F20
    else if InRun(c, 0x1040) then 0x1040
    else if InRun(c, 0x1090) then 0x1090
    else if InRun(c, 0x17E0) then 0x17E0
    else if InRun(c, 0x1810) then 0x1810
    else if InRun(c, 0x1946) then 0x1946
    else if InRun(c, 0x19D0) then 0x19D0
    else if InRun(c, 0x1A80) then 0x1A80
    else if InRun(c, 0x1A90) then 0x1A90
    else if InRun(c, 0x1B50) then 0x1B50
    else if InRun(c, 0x1BB0) then 0x1BB0
    else if InRun(c, 0x1C40) then 0x1C40
    else if InRun(c, 0x1C50) then 0x1C50
    else if InRun(c, 0xA620) then 0xA620
    else if InRun(c, 0xA8D0) then 0xA8D0
    else if InRun(c, 0xA900) then 0xA900
    else if InRun(c, 0xA9D0) then 0xA9D0
    else if InRun(c, 0xAA50) then 0xAA50
    else if InRun(c, 0xABF0) then 0xABF0
    else if InRun(c, 0xFF10) then 0xFF10
    else -1
  }

  /**
   * `Character.digit(c, 10)`: the value of a decimal digit of any script,
   * -1 for every other code unit.
   */
  function DigitValue(c: JChar): (d: int)
    ensures -1 <= d <= 9
    ensures ZERO_DIGIT <= c <= ZERO_DIGIT + 9 ==> d == c - ZERO_DIGIT
  {
    var z := DigitZero(c);
    if z < 0 then -1 else c - z
  }

  predicate IsDigit(c: JChar) { DigitValue(c) >= 0 }

  predicate AllDigits(s: JString) { forall i :: 0 <= i < |s| ==> IsDigit(s[i]) }

  /** The digits `Integer.toString` prints. */
  predicate IsAsciiDigit(c: JChar) { ZERO_DIGIT <= c <= ZERO_DIGIT + 9 }

  predicate AllAsciiDigits(s: JString) { forall i :: 0 <= i < |s| ==> IsAsciiDigit(s[i]) }

  /** The value of a run of decimal digits, most significant first. */
  function DigitsValue(s: JString): (v: nat)
    requires AllDigits(s)
  {
    if |s| == 0 then 0 else 10 * DigitsValue(s[..|s| - 1]) + DigitValue(s[|s| - 1])
  }

  /** The decimal digits of a natural number, without leading zeros. */
  function Digits(n: nat): (r: JString)
    ensures |r| > 0 && AllAsciiDigits(r)
    ensures |r| > 1 ==> r[0] != ZERO_DIGIT
  {
    if n < 10 then [ZERO_DIGIT + n] else Digits(n / 10) + [ZERO_DIGIT + n % 10]
  }

  /** `Integer.toString` / `Long.toString` and string concatenation of a number. */
  function Decimal(n: int): (r: JString)
  {
    if n < 0 then [MINUS] + Digits(-n) else Digits(n)
  }

  /**
   * `Integer.parseInt` / `Long.parseLong` in radix 10 with the value range
   * [lo, hi]: an optional sign, then at least one digit of any script (each
   * read by `Character.digit`), and a value in range; anything else is a
   * `NumberFormatException` (None).
   */
  function ParseDecimal(s: JString, lo: int, hi: int): (r: Option<int>)
    ensures r.Some? ==> lo <= r.value <= hi
    ensures r.Some? ==> |s| > 0
  {
    if |s| == 0 then None
    else
      var signed := s[0] == MINUS || s[0] == PLUS;
      var digits := if signed then s[1..] else s;
      if |digits| == 0 || !AllDigits(digits) then None
      else
        var n := DigitsValue(digits) as int;
        var v := if s[0] == MINUS then -n else n;
        if lo <= v <= hi then Some(v) else None
  }

  function ParseInt(s: JString): (r: Option<int>)
  {
    ParseDecimal(s, -0x8000_0000, 0x7FFF_FFFF)
  }

  function ParseLong(s: JString): (r: Option<int>)
  {
    ParseDecimal(s, -0x8000_0000_0000_0000, 0x7FFF_FFFF_FFFF_FFFF)
  }

  lemma {:induction false} DigitsRoundTrip(n: nat)
    ensures AllDigits(Digits(n)) && DigitsValue(Digits(n)) == n
  {
    var d := Digits(n);
    assert IsDigit(d[|d| - 1]);
    if n >= 10 {
      DigitsRoundTrip(n / 10);
      assert d[..|d| - 1] == Digits(n / 10);
    }
  }

  /** Printing a number and parsing it back gives the number, for every value in range. */
  lemma DecimalRoundTrip(n: int, lo: int, hi: int)
    requires lo <= n <= hi
    ensures ParseDecimal(Decimal(n), lo, hi) == Some(n)
  {
    var s := Decimal(n);
    if n < 0 {
      DigitsRoundTrip(-n);
      assert s[0] == MINUS && s[1..] == Digits(-n);
    } else {
      DigitsRoundTrip(n);
      assert IsAsciiDigit(s[0]);
    }
  }

  /** Digits of other scripts count as `Character.digit` reads them: Arabic-Indic "127" and full-width "255". */
  lemma ScriptDigits()
    ensures ParseInt([0x0661, 0x0662, 0x0667]) == Some(127)
    ensures ParseInt([0xFF12, 0xFF15, 0xFF15]) == Some(255)
    ensures ParseInt([0x0031, 0x0968]) == Some(12)
  {
    ThreeDigits(0x0661, 0x0662, 0x0667);
    ThreeDigits(0xFF12, 0xFF15, 0xFF15);
    var s := [0x0031, 0x0968];
    assert DigitValue(0x0031) == 1 && DigitValue(0x0968) == 2;
    assert s[..1] == [0x0031];
    assert DigitsValue(s) == 12;
  }

  /** Three digits read as a three-digit number. */
  lemma ThreeDigits(a: JChar, b: JChar, c: JChar)
    requires IsDigit(a) && IsDigit(b) && IsDigit(c)
    ensures AllDigits([a, b, c])
    ensures DigitsValue([a, b, c]) == 100 * DigitValue(a) + 10 * DigitValue(b) + DigitValue(c)
  {
    var s := [a, b, c];
    assert s[..2] == [a, b] && [a, b][..1] == [a] && [a][..0] == [];
    assert DigitsValue([a]) == DigitValue(a);
    assert DigitsValue([a, b]) == 10 * DigitValue(a) + DigitValue(b);
  }

  // ---------------------------------------------------------------- search and split

  /** `String.indexOf(char)`: the first position of `c`, or -1. */
  function IndexOf(s: JString, c: JChar): (i: int)
    ensures -1 <= i < |s|
    ensures i == -1 <==> c !in s
    ensures i >= 0 ==> s[i] == c && c !in s[..i]
  {
    if |s| == 0 then -1
    else if s[0] == c then 0
    else var j := IndexOf(s[1..], c); if j < 0 then -1 else j + 1
  }

  /** The pieces between consecutive occurrences of `c`, empty pieces included. */
  function Pieces(s: JString, c: JChar): (r: seq<JString>)
    ensures |r| >= 1
    decreases |s|
  {
    var i := IndexOf(s, c);
    if i < 0 then [s] else [s[..i]] + Pieces(s[i + 1..], c)
  }

  /** Joining the pieces with `c` in between rebuilds the string. */
  lemma {:induction false} PiecesJoin(s: JString, c: JChar)
    ensures Join(Pieces(s, c), c) == s
    decreases |s|
  {
    var i := IndexOf(s, c);
    if i >= 0 {
      var ps := Pieces(s[i + 1..], c);
      PiecesJoin(s[i + 1..], c);
      JoinCons(s[..i], ps, c);
      SplitAt(s, i);
    }
  }

  lemma SplitAt(s: JString, i: int)
    requires 0 <= i < |s|
    ensures s == s[..i] + [s[i]] + s[i + 1..]
  {
  }

  lemma JoinCons(p: JString, ps: seq<JString>, c: JChar)
    requires |ps| >= 1
    ensures Join([p] + ps, c) == p + [c] + Join(ps, c)
  {
    assert ([p] + ps)[1..] == ps;
  }

  /** No piece contains the separator. */
  lemma {:induction false} PiecesFree(s: JString, c: JChar)
    ensures forall k :: 0 <= k < |Pieces(s, c)| ==> c !in Pieces(s, c)[k]
    decreases |s|
  {
    var i := IndexOf(s, c);
    if i >= 0 {
      PiecesFree(s[i + 1..], c);
    }
  }

  function Join(ps: seq<JString>, c: JChar): JString
    requires |ps| >= 1
  {
    if |ps| == 1 then ps[0] else ps[0] + [c] + Join(ps[1..], c)
  }

  function DropTrailingEmpty(ps: seq<JString>): (r: seq<JString>)
    ensures |r| <= |ps| && r == ps[..|r|]
    ensures |r| > 0 ==> r[|r| - 1] != []
    ensures forall k :: |r| <= k < |ps| ==> ps[k] == []
  {
    if |ps| > 0 && ps[|ps| - 1] == [] then DropTrailingEmpty(ps[..|ps| - 1]) else ps
  }

  /**
   * `String.split` with a regular expression matching exactly one literal
   * character (such as `"\\."`): with no match the whole string; otherwise
   * the pieces with trailing empty pieces removed.
   */
  function SplitChar(s: JString, c: JChar): (r: seq<JString>)
  {
    if c !in s then [s] else DropTrailingEmpty(Pieces(s, c))
  }

  /** The six characters `\s` matches in a Java regular expression. */
  predicate IsRegexSpace(c: JChar)
  {
    c == 0x20 || c == 0x09 || c == 0x0A || c == 0x0B || c == 0x0C || c == 0x0D
  }

  function FirstSpace(s: JString): (i: int)
    ensures -1 <= i < |s|
    ensures i >= 0 ==> IsRegexSpace(s[i]) && forall k :: 0 <= k < i ==> !IsRegexSpace(s[k])
    ensures i < 0 ==> forall k :: 0 <= k < |s| ==> !IsRegexSpace(s[k])
  {
    if |s| == 0 then -1
    else if IsRegexSpace(s[0]) then 0
    else var j := FirstSpace(s[1..]); if j < 0 then -1 else j + 1
  }

  function SkipSpaces(s: JString): (r: JString)
    ensures |r| <= |s| && r == s[|s| - |r|..]
    ensures |r| > 0 ==> !IsRegexSpace(r[0])
  {
    if |s| > 0 && IsRegexSpace(s[0]) then SkipSpaces(s[1..]) else s
  }

  function SpacePieces(s: JString): (r: seq<JString>)
    ensures |r| >= 1
    decreases |s|
  {
    var i := FirstSpace(s);
    if i < 0 then [s] else [s[..i]] + SpacePieces(SkipSpaces(s[i..]))
  }

  /** `String.split("\\s+")`: pieces between runs of white space, trailing empty pieces removed. */
  function SplitSpaces(s: JString): (r: seq<JString>)
  {
    if FirstSpace(s) < 0 then [s] else DropTrailingEmpty(SpacePieces(s))
  }

  /** The part before the first `c` (`split(c, 2)[0]`). */
  function Before(s: JString, c: JChar): (r: JString)
    ensures c !in r && r <= s
  {
    var i := IndexOf(s, c);
    if i < 0 then s else s[..i]
  }

  // ---------------------------------------------------------------- replace

  /** `String.replace(char, char)`. */
  function ReplaceChar(s: JString, c: JChar, d: JChar): (r: JString)
    ensures |r| == |s|
    ensures forall i :: 0 <= i < |s| ==> r[i] == (if s[i] == c then d else s[i])
  {
    seq(|s|, i requires 0 <= i < |s| => if s[i] == c then d else s[i])
  }

  /**
   * `String.replace(CharSequence, CharSequence)` for a non-empty target:
   * scans left to right and replaces each non-overlapping occurrence.
   */
  function ReplaceAll(s: JString, t: JString, r: JString): JString
    requires |t| > 0
    decreases |s|
  {
    if |s| < |t| then s
    else if s[..|t|] == t then r + ReplaceAll(s[|t|..], t, r)
    else [s[0]] + ReplaceAll(s[1..], t, r)
  }

  predicate OccursAt(t: JString, s: JString, i: int)
  {
    0 <= i <= |s| - |t| && s[i..i + |t|] == t
  }

  ghost predicate Occurs(t: JString, s: JString)
  {
    exists i :: OccursAt(t, s, i)
  }

  /** An occurrence in the tail of a string is an occurrence in the string. */
  lemma OccursInTail(t: JString, s: JString)
    requires |s| >= 1
    ensures Occurs(t, s[1..]) ==> Occurs(t, s)
  {
    if Occurs(t, s[1..]) {
      var i :| OccursAt(t, s[1..], i);
      assert s[1..][i..i + |t|] == s[i + 1..i + 1 + |t|];
      assert OccursAt(t, s, i + 1);
    }
  }

  /** A string without the target comes back unchanged. */
  lemma {:induction false} ReplaceAbsent(s: JString, t: JString, r: JString)
    requires |t| > 0 && !Occurs(t, s)
    ensures ReplaceAll(s, t, r) == s
    decreases |s|
  {
    if |s| >= |t| {
      assert !OccursAt(t, s, 0);
      assert s[0..|t|] == s[..|t|];
      OccursInTail(t, s);
      ReplaceAbsent(s[1..], t, r);
      assert s == [s[0]] + s[1..];
    }
  }

  /** Replacing a target by itself changes nothing. */
  lemma {:induction false} ReplaceBySelf(s: JString, t: JString)
    requires |t| > 0
    ensures ReplaceAll(s, t, t) == s
    decreases |s|
  {
    if |s| >= |t| {
      if s[..|t|] == t {
        ReplaceBySelf(s[|t|..], t);
        assert s == s[..|t|] + s[|t|..];
      } else {
        ReplaceBySelf(s[1..], t);
        assert s == [s[0]] + s[1..];
      }
    }
  }
}

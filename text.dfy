/**
 * The Foundation and Swift standard-library string behaviour the core relies
 * on, over strings as sequences of characters: substring search
 * (`range(of:)`), decimal rendering of an integer (string interpolation) and
 * decimal parsing (`Int(_:)`).
 */
module Text {
  import opened Wrappers

  const Int64Min: int := -0x8000_0000_0000_0000
  const Int64Max: int := 0x7FFF_FFFF_FFFF_FFFF

  /**
   * `s.range(of: String(c), range: from ..< s.endIndex)?.lowerBound`: the
   * position of the first `c` at or after `from`. `IndexOfSound` and
   * `IndexOfAt` state that this is what it computes.
   */
  function IndexOf(s: string, c: char, from: nat): (r: Option<nat>)
    ensures r.Some? ==> from <= r.value < |s|
    decreases |s| - from
  {
    if |s| <= from then None
    else if s[from] == c then Some(from)
    else IndexOf(s, c, from + 1)
  }

  /** What `IndexOf` reports holds `c` and none before it does; when it reports none, no position at or after `from` holds `c`. */
  lemma {:induction false} IndexOfSound(s: string, c: char, from: nat)
    ensures var r := IndexOf(s, c, from);
      && (r.Some? ==> s[r.value] == c && forall j :: from <= j < r.value ==> s[j] != c)
      && (r.None? ==> forall j :: from <= j < |s| ==> s[j] != c)
    decreases |s| - from
  {
    if from < |s| && s[from] != c {
      IndexOfSound(s, c, from + 1);
    }
  }

  /** The first `c` at or after `from` is the one `IndexOf` reports. */
  lemma {:induction false} IndexOfAt(s: string, c: char, from: nat, i: nat)
    requires from <= i < |s| && s[i] == c
    requires forall j :: from <= j < i ==> s[j] != c
    ensures IndexOf(s, c, from) == Some(i)
    decreases i - from
  {
    if from < i {
      IndexOfAt(s, c, from + 1, i);
    }
  }

  /** When no position at or after `from` holds `c`, `IndexOf` reports none. */
  lemma {:induction false} IndexOfNone(s: string, c: char, from: nat)
    requires forall j :: from <= j < |s| ==> s[j] != c
    ensures IndexOf(s, c, from) == None
    decreases |s| - from
  {
    if from < |s| {
      IndexOfNone(s, c, from + 1);
    }
  }

  /** A carriage return directly followed by a line feed at `i`. */
  predicate CrLfAt(s: string, i: int) {
    0 <= i && i + 1 < |s| && s[i] == '\r' && s[i + 1] == '\n'
  }

  /**
   * `s.range(of: "\r\n", range: from ..< s.endIndex)?.lowerBound`, searching
   * the text as UTF-16 code units: the first carriage return at or after
   * `from` that a line feed follows.
   */
  function IndexOfCrLf(s: string, from: nat): (r: Option<nat>)
    ensures r.Some? ==> from <= r.value && r.value + 1 < |s|
    decreases |s| - from
  {
    if |s| <= from + 1 then None
    else if CrLfAt(s, from) then Some(from)
    else IndexOfCrLf(s, from + 1)
  }

  /** What `IndexOfCrLf` reports is a `"\r\n"` and there is none before it; when it reports none, there is none at all. */
  lemma {:induction false} IndexOfCrLfSound(s: string, from: nat)
    ensures var r := IndexOfCrLf(s, from);
      && (r.Some? ==> CrLfAt(s, r.value) && forall j :: from <= j < r.value ==> !CrLfAt(s, j))
      && (r.None? ==> forall j :: from <= j ==> !CrLfAt(s, j))
    decreases |s| - from
  {
    if from + 1 < |s| && !CrLfAt(s, from) {
      IndexOfCrLfSound(s, from + 1);
    }
  }

  /** A character missing from `t` is missing from every stretch of `s` that reads `t`. */
  lemma AbsentFromSlice(s: string, lo: nat, hi: nat, t: string, c: char)
    requires lo <= hi <= |s| && s[lo..hi] == t
    requires forall k :: 0 <= k < |t| ==> t[k] != c
    ensures forall j :: lo <= j < hi ==> s[j] != c
  {
    forall j | lo <= j < hi ensures s[j] != c {
      assert s[j] == t[j - lo];
    }
  }

  predicate IsDigit(c: char) {
    '0' <= c <= '9'
  }

  predicate AllDigits(s: string) {
    forall i :: 0 <= i < |s| ==> IsDigit(s[i])
  }

  function DigitChar(d: nat): (c: char)
    requires d < 10
    ensures IsDigit(c)
  {
    ('0' as int + d) as char
  }

  /**
   * The decimal digits `s[i..]` read after the value `acc` already read, most
   * significant first; none when a character there is not a digit.
   */
  function DigitsFrom(s: string, i: nat, acc: nat): Option<nat>
    decreases |s| - i
  {
    if |s| <= i then Some(acc)
    else if IsDigit(s[i]) then DigitsFrom(s, i + 1, acc * 10 + (s[i] as int - '0' as int))
    else None
  }

  /** `"\(n)"` for a non-negative `Int`: its decimal digits, without leading zeros. */
  function DecimalString(n: nat): (r: string)
    ensures r != [] && AllDigits(r)
    ensures n > 0 ==> r[0] != '0'
  {
    if n < 10 then [DigitChar(n)]
    else DecimalString(n / 10) + [DigitChar(n % 10)]
  }

  /**
   * Swift's `Int(text)`: an optional `+` or `-` followed by one or more
   * decimal digits and nothing else, and a value that fits in 64 bits.
   */
  function ParseInt(s: string): (r: Option<int>)
    ensures r.Some? ==> Int64Min <= r.value <= Int64Max
  {
    if s == [] then None
    else
      var start := if s[0] == '-' || s[0] == '+' then 1 else 0;
      if |s| == start then None
      else
        match DigitsFrom(s, start, 0)
        case None => None
        case Some(magnitude) =>
          var v: int := if s[0] == '-' then -(magnitude as int) else magnitude;
          if Int64Min <= v <= Int64Max then Some(v) else None
  }

  /** Reading one more digit multiplies the value read so far by ten and adds the digit. */
  lemma {:induction false} DigitsFromAppend(s: string, d: nat, i: nat, acc: nat)
    requires d < 10 && i <= |s|
    ensures DigitsFrom(s + [DigitChar(d)], i, acc)
         == match DigitsFrom(s, i, acc) case None => None case Some(v) => Some(v * 10 + d)
    decreases |s| - i
  {
    var t := s + [DigitChar(d)];
    if i == |s| {
      assert t[i] == DigitChar(d);
      assert DigitsFrom(t, i + 1, acc * 10 + d) == Some(acc * 10 + d);
    } else {
      assert t[i] == s[i];
      if IsDigit(s[i]) {
        DigitsFromAppend(s, d, i + 1, acc * 10 + (s[i] as int - '0' as int));
      }
    }
  }

  /** The decimal rendering reads back as the number. */
  lemma {:induction false} DecimalStringValue(n: nat)
    ensures DigitsFrom(DecimalString(n), 0, 0) == Some(n)
  {
    if n < 10 {
      assert DigitsFrom([DigitChar(n)], 1, n) == Some(n);
    } else {
      DecimalStringValue(n / 10);
      DigitsFromAppend(DecimalString(n / 10), n % 10, 0, 0);
    }
  }

  /** What `DigitsFrom` accepts is digits only. */
  lemma {:induction false} DigitsFromAllDigits(s: string, i: nat, acc: nat)
    requires DigitsFrom(s, i, acc).Some?
    ensures forall j :: i <= j < |s| ==> IsDigit(s[j])
    decreases |s| - i
  {
    if i < |s| {
      DigitsFromAllDigits(s, i + 1, acc * 10 + (s[i] as int - '0' as int));
    }
  }

  /** Parsing the decimal rendering of a non-negative `Int` gives it back. */
  lemma ParseDecimalString(n: nat)
    requires n <= Int64Max
    ensures ParseInt(DecimalString(n)) == Some(n)
  {
    DecimalStringValue(n);
  }

  /** A parsed number text holds only digits after its first character, which is a digit or a sign. */
  lemma ParsedHasNo(s: string, c: char)
    requires ParseInt(s).Some? && !IsDigit(c) && c != '+' && c != '-'
    ensures forall i :: 0 <= i < |s| ==> s[i] != c
  {
    var start := if s[0] == '-' || s[0] == '+' then 1 else 0;
    DigitsFromAllDigits(s, start, 0);
  }
}

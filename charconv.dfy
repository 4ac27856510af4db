/** The integer overloads of std::from_chars, as section 20.19.3 [charconv.from.chars]
    of ISO/IEC 14882:2020 describes them: an optional '-' (signed targets only)
    followed by the longest run of digits of the base, inside [first, last).
    Leading blanks, '+' and a "0x" prefix are not part of the pattern. */
module CharConv {
  import opened Text
  import opened Results

  /** The value of c as a digit of bases up to 36, and 36 when c is no digit at all. */
  function DigitValue(c: char): nat
  {
    if '0' <= c <= '9' then c as nat - '0' as nat
    else if 'a' <= c <= 'z' then c as nat - 'a' as nat + 10
    else if 'A' <= c <= 'Z' then c as nat - 'A' as nat + 10
    else 36
  }

  predicate IsDigitIn(c: char, base: nat) {
    DigitValue(c) < base
  }

  predicate IsBase(base: nat) {
    base == 8 || base == 10 || base == 16
  }

  /** A run of digits ending at e is delimited: it reaches last, the end of
      the window, or a non-digit follows it. */
  predicate RunEnds(s: seq<char>, e: nat, last: nat, base: nat) {
    e == last || !IsDigitIn(At(s, e), base)
  }

  /** Length of the run of base digits starting at i and ending before last
      (or before the terminator, which is no digit). */
  function DigitRun(s: seq<char>, i: nat, last: nat, base: nat): (n: nat)
    requires IsBase(base)
    ensures n > 0 ==> i + n <= last && i + n <= |s|
    ensures forall k :: i <= k < i + n ==> IsDigitIn(s[k], base)
    ensures i + n >= last || !IsDigitIn(At(s, i + n), base)
    decreases last - i
  {
    if i < last && IsDigitIn(At(s, i), base) then
      assert i < |s| by { assert !IsDigitIn('\0', base); }
      assert IsDigitIn(s[i], base);
      1 + DigitRun(s, i + 1, last, base)
    else 0
  }

  /** The number a digit text denotes, most significant digit first. */
  function ValueOf(ds: seq<char>, base: nat): nat
    requires IsBase(base)
  {
    if ds == [] then 0 else Shift(ValueOf(ds[..|ds| - 1], base), base) + DigitValue(ds[|ds| - 1])
  }

  /** v times the base, spelled out for each of the three bases. */
  function Shift(v: nat, base: nat): nat
    requires IsBase(base)
  {
    if base == 8 then v * 8 else if base == 10 then v * 10 else v * 16
  }

  /** The number a matched text denotes: digits, possibly after a '-'. */
  function MatchedValue(t: seq<char>, base: nat): int
    requires IsBase(base)
  {
    if |t| > 0 && t[0] == '-' then -(ValueOf(t[1..], base) as int) else ValueOf(t, base)
  }

  /** ptr is the from_chars_result pointer; value is None when the standard
      leaves the destination unmodified (nothing matched, or out of range). */
  datatype FromCharsResult = FromCharsResult(ptr: nat, value: Option<int>)

  /** Where the text from_chars matches at first ends: after an optional '-'
      (signed only) and the run of digits behind it; first when there is no digit. */
  function MatchEnd(s: seq<char>, first: nat, last: nat, base: nat, signed: bool): (e: nat)
    requires IsBase(base)
    ensures e == first || (first < e <= last && e <= |s|)
  {
    var neg := signed && first < last && At(s, first) == '-';
    var start := if neg then first + 1 else first;
    var n := DigitRun(s, start, last, base);
    if n == 0 then first else start + n
  }

  /** std::from_chars(s + first, s + last, v, base) for an integer type whose
      values are lo..hi; signed tells whether the type is signed. */
  function FromChars(s: seq<char>, first: nat, last: nat, base: nat, signed: bool, lo: int, hi: int): (r: FromCharsResult)
    requires IsBase(base)
    // nothing matched: the pointer stays at first and the value is left alone
    ensures r.ptr == first ==> r.value.None?
    ensures r.ptr > first ==> r.ptr <= last && r.ptr <= |s|
  {
    var e := MatchEnd(s, first, last, base, signed);
    if e == first then
      FromCharsResult(first, None)
    else
      var v := MatchedValue(s[first..e], base);
      FromCharsResult(e, if lo <= v <= hi then Some(v) else None)
  }

  /** What from_chars matches: an optional '-' (signed only) and at least one
      digit, inside [first, last), the longest such text; the value is stored
      exactly when the number it denotes fits the type. When nothing matches,
      the text at first is no digit and no '-' before a digit. */
  lemma FromCharsMatches(s: seq<char>, first: nat, last: nat, base: nat, signed: bool, lo: int, hi: int)
    requires IsBase(base)
    ensures var r := FromChars(s, first, last, base, signed, lo, hi);
            (r.ptr > first ==> forall k :: first <= k < r.ptr ==>
               IsDigitIn(s[k], base) || (k == first && signed && s[k] == '-' && k + 1 < r.ptr)) &&
            (r.ptr > first ==> r.ptr == last || !IsDigitIn(At(s, r.ptr), base)) &&
            (r.ptr == first ==>
               first >= last ||
               (!IsDigitIn(At(s, first), base) &&
                !(signed && At(s, first) == '-' && first + 1 < last && IsDigitIn(At(s, first + 1), base)))) &&
            (r.ptr > first ==> (r.value.Some? <==> lo <= MatchedValue(s[first..r.ptr], base) <= hi)) &&
            (r.value.Some? ==> r.ptr > first && r.value.value == MatchedValue(s[first..r.ptr], base))
  {
    var neg := signed && first < last && At(s, first) == '-';
    var start := if neg then first + 1 else first;
    var n := DigitRun(s, start, last, base);
    assert FromChars(s, first, last, base, signed, lo, hi).ptr == MatchEnd(s, first, last, base, signed);
  }

  /** The character of digit d, lower case for values from ten on. */
  function DigitChar(d: nat): (c: char)
    requires d < 36
    ensures DigitValue(c) == d
  {
    if d < 10 then ('0' as nat + d) as char else ('a' as nat + d - 10) as char
  }

  /** The shortest digit text of n in the given base. */
  function Render(n: nat, base: nat): (ds: seq<char>)
    requires IsBase(base)
    ensures |ds| >= 1
    ensures forall k :: 0 <= k < |ds| ==> IsDigitIn(ds[k], base)
    ensures ValueOf(ds, base) == n
    decreases n
  {
    if n < base then
      assert [DigitChar(n)][..0] == [];
      [DigitChar(n)]
    else
      var q := if base == 8 then n / 8 else if base == 10 then n / 10 else n / 16;
      var hd := Render(q, base);
      var ds := hd + [DigitChar(n - Shift(q, base))];
      assert ds[..|ds| - 1] == hd;
      ds
  }

  /** A run of digits of known length, bounded by a non-digit or by last, is what DigitRun measures. */
  lemma {:induction false} DigitRunOfRun(s: seq<char>, i: nat, m: nat, last: nat, base: nat)
    requires IsBase(base)
    requires i + m <= |s| && i + m <= last
    requires forall k :: i <= k < i + m ==> IsDigitIn(s[k], base)
    requires RunEnds(s, i + m, last, base)
    ensures DigitRun(s, i, last, base) == m
    decreases m
  {
    if m > 0 {
      DigitRunOfRun(s, i + 1, m - 1, last, base);
    }
  }

  /** from_chars on a text holding, at first, an optional '-' and then exactly m
      digits that end at last or before a non-digit. */
  lemma FromCharsOfRun(s: seq<char>, first: nat, neg: bool, m: nat, last: nat,
                       base: nat, signed: bool, lo: int, hi: int)
    requires IsBase(base) && m >= 1
    requires neg ==> signed && first < |s| && s[first] == '-'
    requires var start := if neg then first + 1 else first;
             start + m <= |s| && start + m <= last &&
             (forall k :: start <= k < start + m ==> IsDigitIn(s[k], base)) &&
             RunEnds(s, start + m, last, base)
    ensures var end := (if neg then first + 1 else first) + m;
            var v := MatchedValue(s[first..end], base);
            FromChars(s, first, last, base, signed, lo, hi)
              == FromCharsResult(end, if lo <= v <= hi then Some(v) else None)
  {
    SignAndRun(s, first, neg, m, last, base, signed);
    assert MatchEnd(s, first, last, base, signed) == (if neg then first + 1 else first) + m;
    UnfoldFromChars(s, first, neg, m, last, base, signed, lo, hi);
  }

  /** from_chars once its sign test and its digit run are known. */
  lemma UnfoldFromChars(s: seq<char>, first: nat, neg: bool, m: nat, last: nat,
                        base: nat, signed: bool, lo: int, hi: int)
    requires IsBase(base) && m >= 1
    requires MatchEnd(s, first, last, base, signed) == (if neg then first + 1 else first) + m
    ensures var end := (if neg then first + 1 else first) + m;
            var v := MatchedValue(s[first..end], base);
            FromChars(s, first, last, base, signed, lo, hi)
              == FromCharsResult(end, if lo <= v <= hi then Some(v) else None)
  {
  }

  /** The sign test and the digit run from_chars performs on such a text. */
  lemma SignAndRun(s: seq<char>, first: nat, neg: bool, m: nat, last: nat, base: nat, signed: bool)
    requires IsBase(base) && m >= 1
    requires neg ==> signed && first < |s| && s[first] == '-'
    requires var start := if neg then first + 1 else first;
             start + m <= |s| && start + m <= last &&
             (forall k :: start <= k < start + m ==> IsDigitIn(s[k], base)) &&
             RunEnds(s, start + m, last, base)
    ensures (signed && first < last && At(s, first) == '-') == neg
    ensures DigitRun(s, if neg then first + 1 else first, last, base) == m
  {
    if !neg {
      assert IsDigitIn(s[first], base) && !IsDigitIn('-', base);
    }
    DigitRunOfRun(s, if neg then first + 1 else first, m, last, base);
  }

  /** A digit text t with an optional leading '-', standing at first in s,
      no longer than the window and either filling it or followed by a
      non-digit, is read back. */
  lemma ReadsText(s: seq<char>, first: nat, t: seq<char>, neg: bool,
                  base: nat, width: nat, signed: bool, lo: int, hi: int)
    requires IsBase(base) && (neg ==> signed)
    requires |t| >= (if neg then 2 else 1) && |t| <= width && first + |t| <= |s|
    requires s[first..first + |t|] == t
    requires neg ==> t[0] == '-'
    requires forall k :: (if neg then 1 else 0) <= k < |t| ==> IsDigitIn(t[k], base)
    requires RunEnds(s, first + |t|, first + width, base)
    ensures var v := MatchedValue(t, base);
            FromChars(s, first, first + width, base, signed, lo, hi)
              == FromCharsResult(first + |t|, if lo <= v <= hi then Some(v) else None)
  {
    var start := if neg then first + 1 else first;
    var m := |t| - (start - first);
    assert start + m == first + |t|;
    TextInPlace(s, first, t, if neg then 1 else 0, base);
    assert neg ==> s[first] == t[0];
    FromCharsOfRun(s, first, neg, m, first + width, base, signed, lo, hi);
  }

  /** The digits of a text standing at first in s are digits of s. */
  lemma TextInPlace(s: seq<char>, first: nat, t: seq<char>, from: nat, base: nat)
    requires first + |t| <= |s| && s[first..first + |t|] == t
    requires forall k :: from <= k < |t| ==> IsDigitIn(t[k], base)
    ensures forall k :: first + from <= k < first + |t| ==> IsDigitIn(s[k], base)
    ensures |t| > 0 ==> s[first] == t[0]
  {
    forall k | first + from <= k < first + |t| ensures IsDigitIn(s[k], base) {
      assert s[k] == t[k - first];
    }
    if |t| > 0 {
      assert s[first] == t[0];
    }
  }

  /** The text of n, with a '-' in front when neg. */
  function NumberText(n: nat, neg: bool, base: nat): (t: seq<char>)
    requires IsBase(base)
    ensures |t| >= (if neg then 2 else 1)
    ensures neg ==> t[0] == '-'
    ensures forall k :: (if neg then 1 else 0) <= k < |t| ==> IsDigitIn(t[k], base)
    ensures MatchedValue(t, base) == if neg then -(n as int) else n
  {
    var ds := Render(n, base);
    if neg then
      var t := ['-'] + ds;
      assert t[1..] == ds;
      t
    else
      assert IsDigitIn(ds[0], base);
      ds
  }

  /** Round trip: from_chars reads back the rendered text of a number,
      negated or not, standing at first, when it fits the window and the type
      and it fills the window or a non-digit (or the terminator) follows it. */
  lemma FromCharsRoundTrip(s: seq<char>, first: nat, n: nat, neg: bool,
                           base: nat, width: nat, signed: bool, lo: int, hi: int)
    requires IsBase(base) && (neg ==> signed)
    requires var t := NumberText(n, neg, base);
             |t| <= width && first + |t| <= |s| && s[first..first + |t|] == t &&
             RunEnds(s, first + |t|, first + width, base)
    requires lo <= (if neg then -(n as int) else n) <= hi
    ensures FromChars(s, first, first + width, base, signed, lo, hi)
              == FromCharsResult(first + |NumberText(n, neg, base)|, Some(if neg then -(n as int) else n))
  {
    ReadsText(s, first, NumberText(n, neg, base), neg, base, width, signed, lo, hi);
  }
}

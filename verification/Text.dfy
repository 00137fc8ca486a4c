/** String helpers that stand in for Python's `in`, `str.lower`, `int()` and `str(int)`. */
module Text {
  import opened Wrappers

  /** Python's `needle in hay` on strings: `needle` occurs somewhere in `hay`. */
  predicate Contains(hay: string, needle: string)
    decreases |hay|
  {
    needle <= hay || (|hay| > 0 && Contains(hay[1..], needle))
  }

  /** `needle` occurs in `hay` starting at index `i`. */
  predicate OccursAt(hay: string, needle: string, i: int) {
    0 <= i && i + |needle| <= |hay| && hay[i..i + |needle|] == needle
  }

  /** `Contains` agrees with the slice-based reading of Python's `in`. */
  lemma {:induction false} ContainsIffOccurs(hay: string, needle: string)
    ensures Contains(hay, needle) <==> exists i :: OccursAt(hay, needle, i)
    decreases |hay|
  {
    if needle <= hay {
      assert OccursAt(hay, needle, 0);
    } else if |hay| > 0 {
      ContainsIffOccurs(hay[1..], needle);
      assert !OccursAt(hay, needle, 0);
      forall i | OccursAt(hay[1..], needle, i)
        ensures OccursAt(hay, needle, i + 1)
      {
        assert hay[1..][i..i + |needle|] == hay[i + 1..i + 1 + |needle|];
      }
      forall i | 0 < i && OccursAt(hay, needle, i)
        ensures OccursAt(hay[1..], needle, i - 1)
      {
        assert hay[1..][i - 1..i - 1 + |needle|] == hay[i..i + |needle|];
      }
    } else {
      forall i
        ensures !OccursAt(hay, needle, i)
      {
      }
    }
  }

  /** Every character of a contained string occurs in the containing one; so a string with
      a character the other lacks is not contained in it. */
  lemma ContainedCharsOccur(hay: string, needle: string, j: int)
    ensures Contains(hay, needle) && 0 <= j < |needle| ==> needle[j] in hay
  {
    if Contains(hay, needle) && 0 <= j < |needle| {
      ContainsIffOccurs(hay, needle);
      var i :| OccursAt(hay, needle, i);
      assert needle[j] == hay[i..i + |needle|][j] == hay[i + j];
    }
  }

  /** The empty string occurs in every string, as in Python. */
  lemma EmptyOccursEverywhere(hay: string)
    ensures Contains(hay, "")
  {
  }

  function LowerChar(c: char): char {
    if 'A' <= c <= 'Z' then (c as int - 'A' as int + 'a' as int) as char else c
  }

  /** `str.lower` restricted to ASCII letters. */
  function Lower(s: string): (r: string)
    ensures |r| == |s|
    ensures forall i :: 0 <= i < |s| ==> r[i] == LowerChar(s[i])
  {
    seq(|s|, i requires 0 <= i < |s| => LowerChar(s[i]))
  }

  predicate IsDigit(c: char) {
    '0' <= c <= '9'
  }

  function DigitChar(d: nat): char
    requires d < 10
  {
    ('0' as int + d) as char
  }

  function DigitValue(c: char): nat
    requires IsDigit(c)
  {
    c as int - '0' as int
  }

  /** Decimal rendering of a natural number, most significant digit first. */
  function NatToString(n: nat): (r: string)
    ensures |r| > 0
    ensures forall i :: 0 <= i < |r| ==> IsDigit(r[i])
    ensures n > 0 ==> r[0] != '0'
  {
    if n < 10 then [DigitChar(n)] else NatToString(n / 10) + [DigitChar(n % 10)]
  }

  /** Python's `str(n)` for an `int`. */
  function IntToString(n: int): string {
    if n < 0 then "-" + NatToString(-n) else NatToString(n)
  }

  /** The value of a string of decimal digits. */
  function DigitsValue(d: string): nat
    requires forall i :: 0 <= i < |d| ==> IsDigit(d[i])
  {
    if |d| == 0 then 0 else DigitsValue(d[..|d| - 1]) * 10 + DigitValue(d[|d| - 1])
  }

  lemma {:induction false} NatToStringRoundTrip(n: nat)
    ensures DigitsValue(NatToString(n)) == n
  {
    if n >= 10 {
      var s := NatToString(n);
      assert s[..|s| - 1] == NatToString(n / 10);
      NatToStringRoundTrip(n / 10);
    }
  }

  predicate IsSpace(c: char) {
    c == ' ' || c == '\t' || c == '\n' || c == '\r' || c == 11 as char || c == 12 as char
  }

  /** `str.strip()` restricted to ASCII whitespace. */
  function Strip(s: string): (r: string)
    ensures |r| <= |s|
    decreases |s|
  {
    if |s| > 0 && IsSpace(s[0]) then Strip(s[1..])
    else if |s| > 0 && IsSpace(s[|s| - 1]) then Strip(s[..|s| - 1])
    else s
  }

  /** Position `i` of `d` holds a digit, or an underscore followed by a digit. */
  predicate NumeralCharOk(d: string, i: int)
    requires 0 <= i < |d|
  {
    IsDigit(d[i]) || (d[i] == '_' && i + 1 < |d| && IsDigit(d[i + 1]))
  }

  /** A numeral as Python's `int()` accepts it: digits, with single underscores between digits. */
  predicate Numeral(d: string) {
    && |d| > 0
    && IsDigit(d[0])
    && forall i :: 0 <= i < |d| ==> NumeralCharOk(d, i)
  }

  function DropUnderscores(d: string): (r: string)
    ensures (forall i :: 0 <= i < |d| ==> IsDigit(d[i]) || d[i] == '_') ==>
      forall i :: 0 <= i < |r| ==> IsDigit(r[i])
  {
    if |d| == 0 then "" else if d[0] == '_' then DropUnderscores(d[1..]) else [d[0]] + DropUnderscores(d[1..])
  }

  lemma {:induction false} DropUnderscoresOfDigits(d: string)
    requires forall i :: 0 <= i < |d| ==> IsDigit(d[i])
    ensures DropUnderscores(d) == d
  {
    if |d| > 0 {
      DropUnderscoresOfDigits(d[1..]);
    }
  }

  lemma NumeralChars(d: string)
    requires Numeral(d)
    ensures forall i :: 0 <= i < |d| ==> IsDigit(d[i]) || d[i] == '_'
  {
    forall i | 0 <= i < |d|
      ensures IsDigit(d[i]) || d[i] == '_'
    {
      assert NumeralCharOk(d, i);
    }
  }

  /** The value of a numeral; `None` when `d` is not one. */
  function ParseUnsigned(d: string): (r: Option<nat>)
    ensures r.Some? <==> Numeral(d)
  {
    if !Numeral(d) then None
    else
      NumeralChars(d);
      Some(DigitsValue(DropUnderscores(d)))
  }

  lemma ParseUnsignedRoundTrip(n: nat)
    ensures ParseUnsigned(NatToString(n)) == Some(n)
  {
    DropUnderscoresOfDigits(NatToString(n));
    NatToStringRoundTrip(n);
  }

  lemma StripNoop(s: string)
    requires |s| > 0 && !IsSpace(s[0]) && !IsSpace(s[|s| - 1])
    ensures Strip(s) == s
  {
  }

  /** Python's `int(s)` for a string: surrounding whitespace, an optional sign, a numeral. */
  function ParseInt(s: string): Option<int> {
    var t := Strip(s);
    if |t| > 0 && t[0] == '-' then
      (match ParseUnsigned(t[1..]) case None => None case Some(v) => Some(-(v as int)))
    else if |t| > 0 && t[0] == '+' then
      (match ParseUnsigned(t[1..]) case None => None case Some(v) => Some(v))
    else
      (match ParseUnsigned(t) case None => None case Some(v) => Some(v))
  }

  /** Rendering and parsing agree: `int(str(n)) == n`. */
  lemma IntToStringRoundTrip(n: int)
    ensures ParseInt(IntToString(n)) == Some(n)
  {
    var s := IntToString(n);
    if n < 0 {
      var digits := NatToString(-n);
      StripNoop(s);
      assert s[1..] == digits;
      ParseUnsignedRoundTrip(-n);
    } else {
      StripNoop(s);
      ParseUnsignedRoundTrip(n);
    }
  }

  /** Python's `s.endswith(suffix)`. */
  predicate EndsWith(s: string, suffix: string) {
    |suffix| <= |s| && s[|s| - |suffix|..] == suffix
  }

  lemma EndsWithAppend(a: string, t: string)
    ensures EndsWith(a + t, t) && (a + t)[|a + t| - |t|..] == t
  {
    assert (a + t)[|a|..] == t;
  }

  lemma PrefixOfWrapped(a: string, p: string, s: string, z: string)
    requires p <= s
    ensures a + p <= a + s + z
  {
    assert (a + s + z)[..|a + p|] == a + p;
  }

  lemma SuffixOfWrapped(a: string, s: string, q: string, z: string)
    requires EndsWith(s, q)
    ensures EndsWith(a + s + z, q + z)
  {
    var w := a + s + z;
    assert w[|w| - |q + z|..] == s[|s| - |q|..] + z;
  }

  /** `sep.join(parts)`. */
  function Join(sep: string, parts: seq<string>): (r: string)
    ensures |parts| == 1 ==> r == parts[0]
  {
    if |parts| == 0 then "" else if |parts| == 1 then parts[0] else parts[0] + sep + Join(sep, parts[1..])
  }

  lemma {:induction false} JoinSnoc(sep: string, parts: seq<string>, last: string)
    requires |parts| > 0
    ensures Join(sep, parts + [last]) == Join(sep, parts) + sep + last
  {
    if |parts| == 1 {
      assert (parts + [last])[1..] == [last];
    } else {
      assert (parts + [last])[1..] == parts[1..] + [last];
      JoinSnoc(sep, parts[1..], last);
    }
  }

  lemma JoinCons(sep: string, first: string, rest: seq<string>)
    requires |rest| > 0
    ensures Join(sep, [first] + rest) == first + sep + Join(sep, rest)
  {
    assert ([first] + rest)[1..] == rest;
  }

  /** A join of two or more parts opens with the first part and a separator and closes with
      a separator and the last part. */
  lemma {:induction false} JoinEnds(sep: string, parts: seq<string>)
    requires |parts| >= 2
    ensures parts[0] + sep <= Join(sep, parts)
    ensures EndsWith(Join(sep, parts), sep + parts[|parts| - 1])
  {
    var j := Join(sep, parts);
    assert j == parts[0] + sep + Join(sep, parts[1..]);
    assert j[..|parts[0] + sep|] == parts[0] + sep;
    var init := parts[..|parts| - 1];
    assert parts == init + [parts[|parts| - 1]];
    JoinSnoc(sep, init, parts[|parts| - 1]);
    assert j == Join(sep, init) + (sep + parts[|parts| - 1]);
  }
}

/**
 * The pieces of Python's string handling the parsers rely on: `str.strip()`,
 * `str.split()` on whitespace, `str.split(sep)`, `str.lower()`, `int(text)`
 * and `str(number)`, written out over `string` (a `seq<char>`).
 */
module Text {
  import opened Options

  // ---------------------------------------------------------------------
  // Whitespace, `str.strip()` and `str.split()`
  // ---------------------------------------------------------------------

  /** The characters Python's `str.isspace()` accepts. */
  predicate IsSpace(c: char) {
    || ('\t' <= c <= '\r')
    || ('\U{001C}' <= c <= ' ')
    || c == '\U{0085}' || c == '\U{00A0}' || c == '\U{1680}'
    || ('\U{2000}' <= c <= '\U{200A}')
    || c == '\U{2028}' || c == '\U{2029}' || c == '\U{202F}'
    || c == '\U{205F}' || c == '\U{3000}'
  }

  /** A field `str.split()` can produce: non-empty, with no whitespace. */
  predicate IsField(s: string) {
    |s| > 0 && forall i :: 0 <= i < |s| ==> !IsSpace(s[i])
  }

  /** `s.lstrip()`. */
  function TrimStart(s: string): (r: string)
    ensures |r| <= |s| && r == s[|s| - |r|..]
    ensures |r| > 0 ==> !IsSpace(r[0])
    ensures forall i :: 0 <= i < |s| - |r| ==> IsSpace(s[i])
  {
    if |s| > 0 && IsSpace(s[0]) then TrimStart(s[1..]) else s
  }

  /** `s.rstrip()`. */
  function TrimEnd(s: string): (r: string)
    ensures |r| <= |s| && r == s[..|r|]
    ensures |r| > 0 ==> !IsSpace(r[|r| - 1])
    ensures forall i :: |r| <= i < |s| ==> IsSpace(s[i])
  {
    if |s| > 0 && IsSpace(s[|s| - 1]) then TrimEnd(s[..|s| - 1]) else s
  }

  /** `r` is the stretch of `s` from `a`, with only whitespace before and after it. */
  predicate PaddedAt(s: string, r: string, a: int) {
    && 0 <= a <= |s| - |r|
    && r == s[a..a + |r|]
    && (forall i :: 0 <= i < a ==> IsSpace(s[i]))
    && (forall i :: a + |r| <= i < |s| ==> IsSpace(s[i]))
  }

  /**
   * `s.strip()`: a stretch of `s` that neither starts nor ends with
   * whitespace, with nothing but whitespace on either side of it.
   */
  function Strip(s: string): (r: string)
    ensures |r| > 0 ==> !IsSpace(r[0]) && !IsSpace(r[|r| - 1])
    ensures exists a :: PaddedAt(s, r, a)
  {
    var t := TrimStart(s);
    var a := |s| - |t|;
    var r := TrimEnd(t);
    assert PaddedAt(s, r, a);
    r
  }

  /** Length of the leading run of non-whitespace characters of `s`. */
  function FieldLength(s: string): (n: nat)
    ensures n <= |s|
    ensures forall i :: 0 <= i < n ==> !IsSpace(s[i])
    ensures n < |s| ==> IsSpace(s[n])
  {
    if |s| == 0 || IsSpace(s[0]) then 0 else 1 + FieldLength(s[1..])
  }

  /** `s.split()`: the maximal runs of non-whitespace characters, in order. */
  function SplitWs(s: string): (r: seq<string>)
    ensures forall i :: 0 <= i < |r| ==> IsField(r[i])
    decreases |s|
  {
    if |s| == 0 then []
    else if IsSpace(s[0]) then SplitWs(s[1..])
    else
      var n := FieldLength(s);
      [s[..n]] + SplitWs(s[n..])
  }

  /** One trailing whitespace character does not change `split()`. */
  lemma {:induction false} SplitWsTrailingSpace(s: string, c: char)
    requires IsSpace(c)
    ensures SplitWs(s + [c]) == SplitWs(s)
    decreases |s|
  {
    if |s| == 0 {
      assert SplitWs([c]) == SplitWs([]);
    } else if IsSpace(s[0]) {
      assert (s + [c])[1..] == s[1..] + [c];
      SplitWsTrailingSpace(s[1..], c);
    } else {
      var n := FieldLength(s);
      FieldLengthTrailingSpace(s, c);
      assert (s + [c])[..n] == s[..n];
      assert (s + [c])[n..] == s[n..] + [c];
      SplitWsTrailingSpace(s[n..], c);
    }
  }

  lemma {:induction false} FieldLengthTrailingSpace(s: string, c: char)
    requires IsSpace(c)
    ensures FieldLength(s + [c]) == FieldLength(s)
  {
    if |s| > 0 && !IsSpace(s[0]) {
      assert (s + [c])[1..] == s[1..] + [c];
      FieldLengthTrailingSpace(s[1..], c);
    }
  }

  /** Surrounding whitespace is invisible to `split()`: `s.strip().split() == s.split()`. */
  lemma {:induction false} SplitWsOfStrip(s: string)
    ensures SplitWs(Strip(s)) == SplitWs(s)
  {
    SplitWsOfTrimStart(s);
    SplitWsOfTrimEnd(TrimStart(s));
  }

  lemma {:induction false} SplitWsOfTrimStart(s: string)
    ensures SplitWs(TrimStart(s)) == SplitWs(s)
  {
    if |s| > 0 && IsSpace(s[0]) {
      SplitWsOfTrimStart(s[1..]);
    }
  }

  lemma {:induction false} SplitWsOfTrimEnd(s: string)
    ensures SplitWs(TrimEnd(s)) == SplitWs(s)
  {
    if |s| > 0 && IsSpace(s[|s| - 1]) {
      var t := s[..|s| - 1];
      assert s == t + [s[|s| - 1]];
      SplitWsTrailingSpace(t, s[|s| - 1]);
      SplitWsOfTrimEnd(t);
    }
  }

  /** A field followed by whitespace (or nothing) is split off as the first field. */
  lemma {:induction false} SplitWsLeadingField(f: string, rest: string)
    requires IsField(f)
    requires |rest| == 0 || IsSpace(rest[0])
    ensures SplitWs(f + rest) == [f] + SplitWs(rest)
  {
    FieldLengthOfField(f, rest);
    assert (f + rest)[..|f|] == f;
    assert (f + rest)[|f|..] == rest;
  }

  lemma {:induction false} FieldLengthOfField(f: string, rest: string)
    requires forall i :: 0 <= i < |f| ==> !IsSpace(f[i])
    requires |rest| == 0 || IsSpace(rest[0])
    ensures FieldLength(f + rest) == |f|
  {
    if |f| > 0 {
      assert (f + rest)[1..] == f[1..] + rest;
      FieldLengthOfField(f[1..], rest);
    } else {
      assert f + rest == rest;
    }
  }

  /** Two fields joined by one space split back into exactly those two fields. */
  lemma SplitWsTwoFields(a: string, b: string)
    requires IsField(a) && IsField(b)
    ensures SplitWs(a + " " + b) == [a, b]
  {
    SplitWsLeadingField(a, " " + b);
    assert a + " " + b == a + (" " + b);
    assert (" " + b)[1..] == b;
    SplitWsLeadingField(b, "");
    assert b + "" == b;
  }

  // ---------------------------------------------------------------------
  // `str.split(sep)` for a one-character separator
  // ---------------------------------------------------------------------

  /** Index of the first `c` in `s`, or `|s|` when there is none. */
  function IndexOf(s: string, c: char): (i: nat)
    ensures i <= |s|
    ensures forall j :: 0 <= j < i ==> s[j] != c
    ensures i < |s| ==> s[i] == c
  {
    if |s| == 0 || s[0] == c then 0 else 1 + IndexOf(s[1..], c)
  }

  /** `s.split(sep)`: every piece between separators, empty pieces included. */
  function Split(s: string, sep: char): (r: seq<string>)
    ensures |r| >= 1
    ensures forall i :: 0 <= i < |r| ==> sep !in r[i]
    decreases |s|
  {
    var i := IndexOf(s, sep);
    if i == |s| then [s] else [s[..i]] + Split(s[i + 1..], sep)
  }

  /** `sep.join(parts)`. */
  function Join(parts: seq<string>, sep: char): string
  {
    if |parts| == 0 then ""
    else if |parts| == 1 then parts[0]
    else parts[0] + [sep] + Join(parts[1..], sep)
  }

  /** Three pieces joined: the separator sits between each pair. */
  lemma JoinThree(a: string, b: string, c: string, sep: char)
    ensures Join([a, b, c], sep) == a + [sep] + b + [sep] + c
  {
    var parts := [a, b, c];
    assert parts[1..] == [b, c];
    assert [b, c][1..] == [c];
    assert Join([c], sep) == c;
    assert Join([b, c], sep) == b + [sep] + c;
    assert Join(parts, sep) == a + [sep] + (b + [sep] + c);
  }

  /** Splitting undoes joining, when no piece holds the separator. */
  lemma {:induction false} SplitJoin(parts: seq<string>, sep: char)
    requires |parts| >= 1
    requires forall i :: 0 <= i < |parts| ==> sep !in parts[i]
    ensures Split(Join(parts, sep), sep) == parts
  {
    var s := Join(parts, sep);
    var p := parts[0];
    if |parts| == 1 {
      assert IndexOf(s, sep) == |s|;
    } else {
      var rest := Join(parts[1..], sep);
      assert s == p + [sep] + rest;
      assert s[|p|] == sep;
      assert IndexOf(s, sep) == |p|;
      assert s[..|p|] == p;
      assert s[|p| + 1..] == rest;
      SplitJoin(parts[1..], sep);
    }
  }

  /** Joining undoes splitting. */
  lemma {:induction false} JoinSplit(s: string, sep: char)
    ensures Join(Split(s, sep), sep) == s
    decreases |s|
  {
    var i := IndexOf(s, sep);
    if i < |s| {
      var tail := Split(s[i + 1..], sep);
      var r := Split(s, sep);
      assert r == [s[..i]] + tail;
      assert |r| >= 2 && r[0] == s[..i] && r[1..] == tail;
      assert Join(r, sep) == s[..i] + [sep] + Join(tail, sep);
      JoinSplit(s[i + 1..], sep);
      assert s == s[..i] + [sep] + s[i + 1..];
    } else {
      assert Split(s, sep) == [s];
    }
  }

  // ---------------------------------------------------------------------
  // `str.lower()`
  // ---------------------------------------------------------------------

  function LowerChar(c: char): char {
    if 'A' <= c <= 'Z' then (c as int - 'A' as int + 'a' as int) as char else c
  }

  /** `s.lower()` on the ASCII letters. */
  function Lower(s: string): (r: string)
    ensures |r| == |s|
    ensures forall i :: 0 <= i < |s| ==> r[i] == LowerChar(s[i])
  {
    seq(|s|, i requires 0 <= i < |s| => LowerChar(s[i]))
  }

  // ---------------------------------------------------------------------
  // `int(text)` and `str(number)`
  // ---------------------------------------------------------------------

  predicate IsDigit(c: char) {
    '0' <= c <= '9'
  }

  function DigitValue(c: char): nat
    requires IsDigit(c)
  {
    c as int - '0' as int
  }

  function DigitChar(d: nat): (c: char)
    requires d < 10
    ensures IsDigit(c) && DigitValue(c) == d
  {
    ('0' as int + d) as char
  }

  /**
   * The digit body `int()` accepts: ASCII digits, where single underscores
   * may separate two digits.
   */
  predicate IsDigitGroup(s: string) {
    && |s| > 0
    && IsDigit(s[0])
    && IsDigit(s[|s| - 1])
    && (forall i :: 0 <= i < |s| ==> IsDigit(s[i]) || s[i] == '_')
    && (forall i :: 0 <= i < |s| - 1 ==> s[i] == '_' ==> s[i + 1] != '_')
  }

  /** The decimal value of the digits of `s`, skipping anything else. */
  function DigitsValue(s: string): nat {
    if |s| == 0 then 0
    else if IsDigit(s[|s| - 1]) then DigitsValue(s[..|s| - 1]) * 10 + DigitValue(s[|s| - 1])
    else DigitsValue(s[..|s| - 1])
  }

  /** `int(s)`: an optional sign and a digit group; `None` where Python raises `ValueError`. */
  function ParseInt(s: string): (r: Option<int>)
    ensures r.Some? <==> IsDigitGroup(s) || (|s| > 0 && (s[0] == '+' || s[0] == '-') && IsDigitGroup(s[1..]))
    ensures r.Some? ==> (r.value < 0 ==> s[0] == '-') && (s[0] != '-' ==> r.value >= 0)
    ensures IsDigitGroup(s) ==> r == Some(DigitsValue(s) as int)
    ensures r.Some? && !IsDigitGroup(s) ==> r.value == (if s[0] == '-' then -1 else 1) * DigitsValue(s[1..])
  {
    if |s| > 0 && (s[0] == '+' || s[0] == '-') then
      if IsDigitGroup(s[1..]) then
        Some(if s[0] == '-' then -(DigitsValue(s[1..]) as int) else DigitsValue(s[1..]))
      else None
    else if IsDigitGroup(s) then Some(DigitsValue(s))
    else None
  }

  /** `[int(n) for n in parts]`, or `None` where one of them raises `ValueError`. */
  function ParseInts(parts: seq<string>): (r: Option<seq<int>>)
    ensures r.Some? <==> forall i :: 0 <= i < |parts| ==> ParseInt(parts[i]).Some?
    ensures r.Some? ==> |r.value| == |parts| && forall i :: 0 <= i < |parts| ==> ParseInt(parts[i]) == Some(r.value[i])
  {
    if |parts| == 0 then Some([])
    else
      match (ParseInt(parts[0]), ParseInts(parts[1..]))
      case (Some(x), Some(xs)) =>
        assert forall i :: 1 <= i < |parts| ==> parts[i] == parts[1..][i - 1];
        Some([x] + xs)
      case _ =>
        assert forall i :: 1 <= i < |parts| ==> parts[i] == parts[1..][i - 1];
        None
  }

  /** `int(c)` of a single character: its digit value, or an error. */
  lemma ParseSingleChar(c: char)
    ensures ParseInt([c]) == if IsDigit(c) then Some(DigitValue(c)) else None
  {
    var s := [c];
    if IsDigit(c) {
      assert IsDigitGroup(s);
      assert s[..0] == [];
      assert DigitsValue(s) == DigitValue(c);
    } else {
      assert !IsDigitGroup(s);
    }
  }

  /** `str(n)` for a non-negative `n`. */
  function NatToString(n: nat): string
    decreases n
  {
    if n < 10 then [DigitChar(n)] else NatToString(n / 10) + [DigitChar(n % 10)]
  }

  /** `str(i)`: a minus sign exactly when `i` is negative, then decimal digits. */
  function IntToString(i: int): (s: string)
    ensures |s| > 0 && (s[0] == '-' <==> i < 0)
    ensures forall k :: (if i < 0 then 1 else 0) <= k < |s| ==> IsDigit(s[k])
  {
    NatToStringValue(if i < 0 then -i else i);
    if i < 0 then "-" + NatToString(-i) else NatToString(i)
  }

  /** The decimal text of `n` is a digit group whose value is `n`. */
  lemma {:induction false} NatToStringValue(n: nat)
    ensures |NatToString(n)| > 0
    ensures forall i :: 0 <= i < |NatToString(n)| ==> IsDigit(NatToString(n)[i])
    ensures DigitsValue(NatToString(n)) == n
    decreases n
  {
    if n >= 10 {
      NatToStringValue(n / 10);
      var s := NatToString(n);
      assert s[..|s| - 1] == NatToString(n / 10);
    }
  }

  /** `int(str(i)) == i`. */
  lemma ParseIntToString(i: int)
    ensures ParseInt(IntToString(i)) == Some(i)
  {
    var n := if i < 0 then -i else i;
    NatToStringValue(n);
    var s := IntToString(i);
    if i < 0 {
      assert s[1..] == NatToString(n);
    }
  }

  /** Text made of digits and minus signs: what `str()` of an integer produces. */
  predicate IsNumeral(s: string) {
    |s| > 0 && forall i :: 0 <= i < |s| ==> IsDigit(s[i]) || s[i] == '-'
  }

  lemma IntToStringIsNumeral(i: int)
    ensures IsNumeral(IntToString(i))
  {
    var n := if i < 0 then -i else i;
    NatToStringValue(n);
  }

  /** A numeral is a whitespace-free field that `lower()` leaves unchanged. */
  lemma NumeralFacts(s: string)
    requires IsNumeral(s)
    ensures IsField(s)
    ensures Lower(s) == s
    ensures '/' !in s && '.' !in s
  {
    assert forall i :: 0 <= i < |s| ==> s[i] != '/' && s[i] != '.';
  }
}

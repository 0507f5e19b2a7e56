/**
 * `toHebCount` of static/calendar.js: a count written in Hebrew letters,
 * as used for days and years of the Hebrew calendar (785 is תשפ"ה).
 *
 * The JavaScript builds a list of tokens (single letters, or the
 * two-letter tokens 'טו' and 'טז') and joins them; a gershayim '"' goes
 * before the last token when a hundreds letter is present. The model
 * keeps the token list, so the placement of the gershayim is the
 * source's.
 */
module HebCount {

  const Hundreds: string := "קרש"
  const Tens: string := "יכלמנסעפצ"
  const Ones: string := "אבגדהוזחט"
  const Gershayim: char := '"'

  /** `letters[i] ?? []`, spread: the letter at `i` as one token, or nothing when `i` is out of range. */
  function LetterAt(letters: string, i: int): (ts: seq<string>)
    ensures |ts| == if 0 <= i < |letters| then 1 else 0
  {
    if 0 <= i < |letters| then [[letters[i]]] else []
  }

  /** `'ת'.repeat(k)`, spread: `k` tokens 'ת'. */
  function Taws(k: nat): (ts: seq<string>)
    ensures |ts| == k && forall i :: 0 <= i < k ==> ts[i] == "ת"
  {
    seq(k, _ => "ת")
  }

  /** `hundreds`: ק, ר or ש for 100, 200 or 300 modulo 400, else nothing. */
  function HundredsOf(n: nat): seq<string> {
    LetterAt(Hundreds, n % 400 / 100 - 1)
  }

  /** `specialCases`: 'טו' for 15 and 'טז' for 16 (mod 100), in place of tens and ones. */
  function Special(n: nat): seq<string> {
    if n % 100 == 15 then ["טו"] else if n % 100 == 16 then ["טז"] else []
  }

  /**
   * The tokens after the thousands: the hundreds letter, then either the
   * special token or the tens and ones letters.
   */
  function Rest(n: nat): seq<string> {
    if |Special(n)| > 0 then HundredsOf(n) + Special(n)
    else HundredsOf(n) + LetterAt(Tens, n % 100 / 10 - 1) + LetterAt(Ones, n % 10 - 1)
  }

  /** The token list before the gershayim goes in. */
  function Tokens(n: nat): seq<string> {
    Taws(n / 400) + Rest(n)
  }

  /** `toSpliced(-1, 0, x)` on a non-empty list: `x` goes just before the last element. */
  function InsertBeforeLast(ts: seq<string>, x: string): (r: seq<string>)
    requires |ts| > 0
    ensures |r| == |ts| + 1 && r[|ts| - 1] == x && r[|ts|] == ts[|ts| - 1] && r[..|ts| - 1] == ts[..|ts| - 1]
  {
    ts[..|ts| - 1] + [x] + [ts[|ts| - 1]]
  }

  /** `join('')`. */
  function Concat(ts: seq<string>): string {
    if |ts| == 0 then "" else Concat(ts[..|ts| - 1]) + ts[|ts| - 1]
  }

  /**
   * `toHebCount(n)` for a non-negative integer `n`: written only with
   * 'ת', the hundreds, tens and ones letters and the gershayim.
   * `ToHebCountValue` gives its meaning.
   */
  function ToHebCount(n: nat): (r: string)
    ensures forall i :: 0 <= i < |r| ==> IsCountChar(r[i])
  {
    var ts := Tokens(n);
    TokensAreCountText(n);
    if |HundredsOf(n)| > 0 then
      var marked := InsertBeforeLast(ts, [Gershayim]);
      assert forall i :: 0 <= i < |marked| ==> IsCountText(marked[i]) by {
        forall i | 0 <= i < |marked| ensures IsCountText(marked[i]) {
          if i < |ts| - 1 { assert marked[i] == ts[i]; }
        }
      }
      ConcatCountText(marked);
      Concat(marked)
    else
      ConcatCountText(ts);
      Concat(ts)
  }

  /** A character a count can be written with. */
  predicate IsCountChar(c: char) {
    c == 'ת' || c in Hundreds || c in Tens || c in Ones || c == Gershayim
  }

  /** A text made only of such characters. */
  predicate IsCountText(t: string) {
    forall k :: 0 <= k < |t| ==> IsCountChar(t[k])
  }

  /** Every token of `Tokens(n)` is written with count characters. */
  lemma TokensAreCountText(n: nat)
    ensures forall i :: 0 <= i < |Tokens(n)| ==> IsCountText(Tokens(n)[i])
  {
    assert 'ט' in Ones && 'ו' in Ones && 'ז' in Ones by {
      assert Ones[8] == 'ט' && Ones[5] == 'ו' && Ones[6] == 'ז';
    }
  }

  /** Joining texts made of count characters gives such a text. */
  lemma {:induction false} ConcatCountText(ts: seq<string>)
    requires forall i :: 0 <= i < |ts| ==> IsCountText(ts[i])
    ensures IsCountText(Concat(ts))
    decreases |ts|
  {
    if |ts| > 0 {
      ConcatCountText(ts[..|ts| - 1]);
    }
  }

  // ---------------------------------------------------------------------
  // The numeric value of Hebrew letters (gematria)
  // ---------------------------------------------------------------------

  /** The value of a letter; the gershayim and anything else count 0. */
  function LetterValue(c: char): nat {
    match c
    case 'א' => 1   case 'ב' => 2   case 'ג' => 3   case 'ד' => 4   case 'ה' => 5
    case 'ו' => 6   case 'ז' => 7   case 'ח' => 8   case 'ט' => 9
    case 'י' => 10  case 'כ' => 20  case 'ל' => 30  case 'מ' => 40  case 'נ' => 50
    case 'ס' => 60  case 'ע' => 70  case 'פ' => 80  case 'צ' => 90
    case 'ק' => 100 case 'ר' => 200 case 'ש' => 300 case 'ת' => 400
    case _ => 0
  }

  /** The value of a text: the sum of its letters' values. */
  function Value(s: string): nat {
    if |s| == 0 then 0 else Value(s[..|s| - 1]) + LetterValue(s[|s| - 1])
  }

  lemma {:induction false} ValueAppend(a: string, b: string)
    ensures Value(a + b) == Value(a) + Value(b)
    decreases |b|
  {
    if |b| > 0 {
      assert (a + b)[..|a + b| - 1] == a + b[..|b| - 1];
      ValueAppend(a, b[..|b| - 1]);
    } else {
      assert a + b == a;
    }
  }

  /** The sum of the tokens' values. */
  function TokensValue(ts: seq<string>): nat {
    if |ts| == 0 then 0 else TokensValue(ts[..|ts| - 1]) + Value(ts[|ts| - 1])
  }

  lemma {:induction false} TokensValueAppend(a: seq<string>, b: seq<string>)
    ensures TokensValue(a + b) == TokensValue(a) + TokensValue(b)
    decreases |b|
  {
    if |b| > 0 {
      assert (a + b)[..|a + b| - 1] == a + b[..|b| - 1];
      TokensValueAppend(a, b[..|b| - 1]);
    } else {
      assert a + b == a;
    }
  }

  lemma {:induction false} ConcatValue(ts: seq<string>)
    ensures Value(Concat(ts)) == TokensValue(ts)
    decreases |ts|
  {
    if |ts| > 0 {
      ConcatValue(ts[..|ts| - 1]);
      ValueAppend(Concat(ts[..|ts| - 1]), ts[|ts| - 1]);
    }
  }

  lemma {:induction false} TawsValue(k: nat)
    ensures TokensValue(Taws(k)) == 400 * k
    decreases k
  {
    if k > 0 {
      assert Taws(k)[..k - 1] == Taws(k - 1);
      TawsValue(k - 1);
      assert Value("ת") == 400 by {
        assert "ת"[..0] == "";
      }
    }
  }

  /** A one-letter token is worth its letter. */
  lemma SingleValue(c: char)
    ensures Value([c]) == LetterValue(c)
  {
    assert [c][..0] == [];
  }

  /** Letter `i` of a row is worth `(i + 1)` times the row's unit. */
  lemma RowValue(letters: string, unit: nat, i: int)
    requires (letters == Ones && unit == 1) || (letters == Tens && unit == 10) || (letters == Hundreds && unit == 100)
    ensures TokensValue(LetterAt(letters, i)) == if 0 <= i < |letters| then unit * (i + 1) else 0
  {
    if 0 <= i < |letters| {
      SingleValue(letters[i]);
      assert LetterAt(letters, i)[..0] == [];
      assert LetterValue(letters[i]) == unit * (i + 1);
    }
  }

  /** The special tokens are worth 15 and 16. */
  lemma SpecialValue(n: nat)
    ensures TokensValue(Special(n)) == if n % 100 == 15 then 15 else if n % 100 == 16 then 16 else 0
  {
    if n % 100 == 15 || n % 100 == 16 {
      assert Special(n)[..0] == [];
      var t := Special(n)[0];
      assert t[..1][..0] == "";
      assert Value(t[..1]) == 9;
      assert t == t[..1] + [t[1]];
    }
  }

  /** Quotient and remainder by 10, 100 or 400 are the only ones with the remainder in range. */
  lemma DivModUnique(n: int, d: int, q: int, r: int)
    requires d == 10 || d == 100 || d == 400
    requires n == d * q + r && 0 <= r < d
    ensures n / d == q && n % d == r
  {
  }

  /** The decimal digits of `n`, in the units the letters use. */
  lemma Digits(n: nat)
    ensures n % 100 == n % 400 % 100 && n % 10 == n % 100 % 10
    ensures n == 400 * (n / 400) + 100 * (n % 400 / 100) + 10 * (n % 100 / 10) + n % 10
    ensures n % 100 == 10 * (n % 100 / 10) + n % 10
  {
    var a, r := n / 400, n % 400;
    DivModUnique(n, 400, a, r);
    var b, c := r / 100, r % 100;
    DivModUnique(r, 100, b, c);
    DivModUnique(n, 100, 4 * a + b, c);
    var t, e := c / 10, c % 10;
    DivModUnique(c, 10, t, e);
    DivModUnique(n, 10, 40 * a + 10 * b + t, e);
  }

  /** The tokens after the thousands add up to `n` modulo 400. */
  lemma {:induction false} RestValue(n: nat)
    ensures TokensValue(Rest(n)) == n % 400
  {
    var hundreds := HundredsOf(n);
    var tens := LetterAt(Tens, n % 100 / 10 - 1);
    var ones := LetterAt(Ones, n % 10 - 1);
    Digits(n);
    RowValue(Hundreds, 100, n % 400 / 100 - 1);
    assert TokensValue(hundreds) == 100 * (n % 400 / 100);
    if |Special(n)| > 0 {
      SpecialValue(n);
      TokensValueAppend(hundreds, Special(n));
    } else {
      RowValue(Tens, 10, n % 100 / 10 - 1);
      RowValue(Ones, 1, n % 10 - 1);
      assert TokensValue(tens) == 10 * (n % 100 / 10);
      assert TokensValue(ones) == n % 10;
      TokensValueAppend(hundreds, tens);
      TokensValueAppend(hundreds + tens, ones);
    }
  }

  /** The tokens add up to `n`. */
  lemma {:induction false} TokensValueIsCount(n: nat)
    ensures TokensValue(Tokens(n)) == n
  {
    TawsValue(n / 400);
    RestValue(n);
    TokensValueAppend(Taws(n / 400), Rest(n));
  }

  /** The gershayim is worth nothing. */
  lemma {:induction false} GershayimValue(ts: seq<string>)
    requires |ts| > 0
    ensures TokensValue(InsertBeforeLast(ts, [Gershayim])) == TokensValue(ts)
  {
    var init := ts[..|ts| - 1];
    var last := [ts[|ts| - 1]];
    assert InsertBeforeLast(ts, [Gershayim]) == init + [[Gershayim]] + last;
    assert ts == init + last;
    TokensValueAppend(init, last);
    TokensValueAppend(init, [[Gershayim]]);
    TokensValueAppend(init + [[Gershayim]], last);
    SingleValue(Gershayim);
    assert [[Gershayim]][..0] == [];
  }

  /** The letters add up to the number written: `toHebCount` is a faithful gematria of `n`. */
  lemma {:induction false} ToHebCountValue(n: nat)
    ensures Value(ToHebCount(n)) == n
  {
    var ts := Tokens(n);
    TokensValueIsCount(n);
    if |HundredsOf(n)| > 0 {
      GershayimValue(ts);
      ConcatValue(InsertBeforeLast(ts, [Gershayim]));
    } else {
      ConcatValue(ts);
    }
  }

  // ---------------------------------------------------------------------
  // Shape of the result
  // ---------------------------------------------------------------------

  lemma {:induction false} ConcatAppend(a: seq<string>, b: seq<string>)
    ensures Concat(a + b) == Concat(a) + Concat(b)
    decreases |b|
  {
    if |b| > 0 {
      assert (a + b)[..|a + b| - 1] == a + b[..|b| - 1];
      ConcatAppend(a, b[..|b| - 1]);
    } else {
      assert a + b == a;
    }
  }

  /** `k` letters 'ת': the joined thousands. */
  function TawText(k: nat): (s: string)
    ensures |s| == k && forall i :: 0 <= i < k ==> s[i] == 'ת'
  {
    if k == 0 then "" else TawText(k - 1) + "ת"
  }

  lemma {:induction false} ConcatTaws(k: nat)
    ensures Concat(Taws(k)) == TawText(k)
    decreases k
  {
    if k > 0 {
      assert Taws(k)[..k - 1] == Taws(k - 1);
      ConcatTaws(k - 1);
    }
  }

  /** One more 'ת' in front is one more at the back. */
  lemma {:induction false} TawTextFront(k: nat)
    ensures TawText(k + 1) == "ת" + TawText(k)
    decreases k
  {
    if k > 0 {
      TawTextFront(k - 1);
      assert TawText(k + 1) == ("ת" + TawText(k - 1)) + "ת";
      assert ("ת" + TawText(k - 1)) + "ת" == "ת" + (TawText(k - 1) + "ת");
    }
  }

  /** The tokens after the thousands, with the gershayim in place when there is a hundreds letter. */
  function MarkedRest(n: nat): seq<string> {
    if |HundredsOf(n)| > 0 then InsertBeforeLast(Rest(n), [Gershayim]) else Rest(n)
  }

  /** The joined tokens are the thousands followed by the marked tokens after them. */
  lemma Decompose(n: nat)
    ensures ToHebCount(n) == TawText(n / 400) + Concat(MarkedRest(n))
  {
    var th := Taws(n / 400);
    var rest := Rest(n);
    if |HundredsOf(n)| > 0 {
      assert |rest| > 0;
      assert (th + rest)[..|th + rest| - 1] == th + rest[..|rest| - 1];
      assert InsertBeforeLast(th + rest, [Gershayim]) == th + InsertBeforeLast(rest, [Gershayim]);
      ConcatAppend(th, InsertBeforeLast(rest, [Gershayim]));
    } else {
      ConcatAppend(th, rest);
    }
    ConcatTaws(n / 400);
  }

  /** Everything after the thousands depends on `n` modulo 400 only. */
  lemma SameRemainder(n: nat)
    ensures MarkedRest(n % 400) == MarkedRest(n)
  {
    var r := n % 400;
    DivModUnique(r, 400, 0, r);
    Digits(n);
    Digits(r);
    assert r % 100 == n % 100 && r % 10 == n % 10;
    assert HundredsOf(r) == HundredsOf(n);
    assert Special(r) == Special(n);
  }

  /** Below 400 the rendering is the marked tokens alone. */
  lemma BelowFourHundred(r: nat)
    requires r < 400
    ensures ToHebCount(r) == Concat(MarkedRest(r))
  {
    Decompose(r);
    assert TawText(r / 400) == "";
  }

  /** The output starts with one 'ת' per whole 400, followed by the rendering of the remainder. */
  lemma TawPrefix(n: nat)
    ensures ToHebCount(n) == TawText(n / 400) + ToHebCount(n % 400)
  {
    Decompose(n);
    SameRemainder(n);
    BelowFourHundred(n % 400);
  }

  /** Every further 400 puts one more 'ת' in front and changes nothing else. */
  lemma AddFourHundred(n: nat)
    ensures ToHebCount(n + 400) == "ת" + ToHebCount(n)
  {
    var k, t := n / 400, ToHebCount(n % 400);
    TawPrefix(n);
    TawPrefix(n + 400);
    DivModUnique(n + 400, 400, k + 1, n % 400);
    assert ToHebCount(n + 400) == TawText(k + 1) + t;
    TawTextFront(k);
    Assoc("ת", TawText(k), t);
  }

  lemma Assoc(a: string, b: string, c: string)
    ensures (a + b) + c == a + (b + c)
  {
  }

  lemma {:induction false} ConcatHas(ts: seq<string>, c: char)
    ensures c in Concat(ts) <==> exists i :: 0 <= i < |ts| && c in ts[i]
    decreases |ts|
  {
    if |ts| > 0 {
      var init := ts[..|ts| - 1];
      ConcatHas(init, c);
      assert Concat(ts) == Concat(init) + ts[|ts| - 1];
      if exists i :: 0 <= i < |ts| && c in ts[i] {
        var i :| 0 <= i < |ts| && c in ts[i];
        if i < |ts| - 1 {
          assert init[i] == ts[i];
        }
      }
      if c in Concat(init) {
        var i :| 0 <= i < |init| && c in init[i];
        assert ts[i] == init[i];
      }
    }
  }

  /** No token carries a gershayim: only the splice puts one in. */
  lemma TokensHaveNoGershayim(n: nat)
    ensures forall i :: 0 <= i < |Tokens(n)| ==> Gershayim !in Tokens(n)[i]
  {
  }

  /** A gershayim appears exactly when `n` has a hundreds letter (100 to 399 modulo 400). */
  lemma {:induction false} GershayimWhenHundreds(n: nat)
    ensures Gershayim in ToHebCount(n) <==> n % 400 >= 100
  {
    var ts := Tokens(n);
    TokensHaveNoGershayim(n);
    if n % 400 >= 100 {
      var g := InsertBeforeLast(ts, [Gershayim]);
      ConcatHas(g, Gershayim);
      assert Gershayim in g[|ts| - 1];
    } else {
      ConcatHas(ts, Gershayim);
    }
  }

  lemma ConcatOne(t: string)
    ensures Concat([t]) == t
  {
    assert [t][..0] == [];
  }

  lemma ConcatPrepend(t: string, ts: seq<string>)
    ensures Concat([t] + ts) == t + Concat(ts)
  {
    ConcatAppend([t], ts);
    ConcatOne(t);
  }

  lemma Example785()
    ensures ToHebCount(785) == "תשפ\"ה"
  {
    var g := ["ת"] + (["ש"] + (["פ"] + (["\""] + ["ה"])));
    assert ToHebCount(785) == Concat(g) by {
      assert Tokens(785) == ["ת", "ש", "פ", "ה"];
      assert InsertBeforeLast(["ת", "ש", "פ", "ה"], [Gershayim]) == g;
    }
    ConcatOne("ה");
    ConcatPrepend("\"", ["ה"]);
    ConcatPrepend("פ", ["\""] + ["ה"]);
    ConcatPrepend("ש", ["פ"] + (["\""] + ["ה"]));
    ConcatPrepend("ת", ["ש"] + (["פ"] + (["\""] + ["ה"])));
  }

  /** Splicing into a single token puts the gershayim in front of it. */
  lemma SpliceSingle(t: string)
    ensures Concat(InsertBeforeLast([t], [Gershayim])) == [Gershayim] + t
  {
    assert InsertBeforeLast([t], [Gershayim]) == [[Gershayim]] + [t];
    ConcatOne(t);
    ConcatPrepend([Gershayim], [t]);
  }

  /** A whole number of hundreds below 400 is the hundreds letter alone. */
  lemma HundredsTokens(d: nat)
    requires 1 <= d <= 3
    ensures |HundredsOf(100 * d)| > 0 && Tokens(100 * d) == [[Hundreds[d - 1]]]
  {
    var n := 100 * d;
    DivModUnique(n, 400, 0, n);
    DivModUnique(n, 100, d, 0);
    DivModUnique(0, 10, 0, 0);
  }

  /** The splice puts the gershayim first when the hundreds letter is the only token: 100 is "ק. */
  lemma WholeHundreds(d: nat)
    requires 1 <= d <= 3
    ensures ToHebCount(100 * d) == [Gershayim, Hundreds[d - 1]]
  {
    HundredsTokens(d);
    SpliceSingle([Hundreds[d - 1]]);
  }

  /** 15 and 16 are written טו and טז, never יה and יו. */
  lemma Examples15And16()
    ensures ToHebCount(15) == "טו" && ToHebCount(16) == "טז"
  {
    SpecialExample(15, "טו");
    SpecialExample(16, "טז");
  }

  /** A number below 100 whose only token is a special pair is written as that pair. */
  lemma SpecialExample(n: nat, t: string)
    requires n < 100 && Special(n) == [t]
    ensures ToHebCount(n) == t
  {
    BelowFourHundred(n);
    assert MarkedRest(n) == [t];
    ConcatOne(t);
  }

  /** After a hundreds letter the gershayim goes before the whole pair: 115 is ק"טו. */
  lemma Example115()
    ensures ToHebCount(115) == "ק\"טו"
  {
    BelowFourHundred(115);
    assert Rest(115) == ["ק", "טו"];
    assert MarkedRest(115) == ["ק"] + (["\""] + ["טו"]);
    ConcatOne("טו");
    ConcatPrepend("\"", ["טו"]);
    ConcatPrepend("ק", ["\""] + ["טו"]);
  }

  /** 1 to 9 are the single letters א to ט. */
  lemma OneToNine(n: nat)
    requires 1 <= n <= 9
    ensures ToHebCount(n) == [Ones[n - 1]]
  {
    assert n / 400 == 0 && n % 400 / 100 - 1 == -1 && n % 100 / 10 - 1 == -1 && n % 10 == n && n % 100 == n;
    assert Special(n) == [];
    assert Tokens(n) == [] + ([] + [] + [[Ones[n - 1]]]);
    ConcatOne([Ones[n - 1]]);
  }

  /** Zero is the empty text. */
  lemma ExampleZero()
    ensures ToHebCount(0) == ""
  {
  }
}

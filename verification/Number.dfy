/** sysPutNumber (wb_uart.c): digits, grouping commas, sign, padding, and how to read the text back. */
module Number {
  import opened Bits
  import opened Division

  // ---- Digits, least significant first ----

  /** The digits of u in radix r; at least one. */
  function Digits(u: nat, r: nat): (ds: seq<nat>)
    requires r >= 2
    ensures |ds| >= 1 && forall k | 0 <= k < |ds| :: ds[k] < r
    decreases u
  {
    if u < r then [u] else
      DivLess(u, r);
      [u % r] + Digits(u / r, r)
  }

  lemma DivLess(u: nat, r: nat)
    requires r >= 2 && u >= r
    ensures 0 < u / r < u
  {
    DivBounds(u, r);
    QuotientAtLeast(u, r, 1);
    QuotientBelow(u, r, u);
  }

  /** The number that a digit sequence denotes. */
  function Value(ds: seq<nat>, r: nat): nat {
    if ds == [] then 0 else ds[0] + r * Value(ds[1..], r)
  }

  lemma {:induction false} DigitsValue(u: nat, r: nat)
    requires r >= 2
    ensures Value(Digits(u, r), r) == u
    decreases u
  {
    if u < r {
      assert Digits(u, r) == [u] && [u][1..] == [];
    } else {
      DivLess(u, r);
      DigitsValue(u / r, r);
      var ds, rest := Digits(u, r), Digits(u / r, r);
      assert ds == [u % r] + rest && ds[1..] == rest;
      DivMod(u, r);
      assert u / r * r == r * (u / r);
    }
  }

  /** No number but 0 has a leading zero. */
  lemma {:induction false} LeadingDigit(u: nat, r: nat)
    requires r >= 2
    ensures Digits(u, r)[|Digits(u, r)| - 1] == 0 <==> u == 0
    decreases u
  {
    if u >= r {
      DivLess(u, r);
      LeadingDigit(u / r, r);
    }
  }

  function Power(r: nat, n: nat): nat {
    if n == 0 then 1 else r * Power(r, n - 1)
  }

  /** u has at most n digits if it is below r to the n. */
  lemma {:induction false} DigitsBound(u: nat, r: nat, n: nat)
    requires r >= 2 && n >= 1 && u < Power(r, n)
    ensures |Digits(u, r)| <= n
    decreases n
  {
    if u >= r {
      DivLess(u, r);
      assert n >= 2;
      assert r * Power(r, n - 1) == Power(r, n - 1) * r;
      QuotientBelow(u, r, Power(r, n - 1));
      DigitsBound(u / r, r, n - 1);
    }
  }

  lemma PowersExceedWord()
    ensures Power(3, 21) >= TWO32 && Power(8, 11) >= TWO32 && Power(10, 10) >= TWO32 && Power(16, 8) >= TWO32
  {
    assert Power(3, 5) == 243;
    assert Power(3, 10) == 59049;
    assert Power(3, 15) == 14348907;
    assert Power(3, 20) == 3486784401;
    assert Power(8, 5) == 32768;
    assert Power(8, 10) == 1073741824;
    assert Power(10, 5) == 100000;
    assert Power(16, 4) == 65536;
  }

  // ---- Text of a number, least significant character first, as it fills the buffer ----

  function DigitChar(d: nat): char
    requires d < 16
  {
    if d <= 9 then '0' + d as char else 'A' + (d - 10) as char
  }

  predicate IsDigit(c: char) {
    '0' <= c <= '9' || 'A' <= c <= 'F'
  }

  function DigitOf(c: char): nat
    requires IsDigit(c)
  {
    if c <= '9' then (c - '0') as nat else (c - 'A') as nat + 10
  }

  lemma DigitChars(d: nat)
    requires d < 16
    ensures DigitChar(d) == "0123456789ABCDEF"[d]
    ensures IsDigit(DigitChar(d)) && DigitOf(DigitChar(d)) == d && DigitChar(d) != ',' && DigitChar(d) != '-'
  {
  }

  /** A comma goes in front of digit k of a decimal number when k is a positive multiple of three. */
  function Comma(k: nat, r: nat): seq<char> {
    if r == 10 && k > 0 && k % 3 == 0 then [','] else []
  }

  predicate Small(ds: seq<nat>) {
    forall j | 0 <= j < |ds| :: ds[j] < 16
  }

  /** The digits ds, of which the first is digit k of the number. */
  function Text(ds: seq<nat>, k: nat, r: nat): seq<char>
    requires Small(ds)
  {
    if ds == [] then [] else Comma(k, r) + [DigitChar(ds[0])] + Text(ds[1..], k + 1, r)
  }

  lemma {:induction false} TextSnoc(ds: seq<nat>, d: nat, k: nat, r: nat)
    requires d < 16 && Small(ds)
    ensures Text(ds + [d], k, r) == Text(ds, k, r) + Comma(k + |ds|, r) + [DigitChar(d)]
  {
    hide DigitChar, Comma;
    if ds == [] {
      assert [d][1..] == [] && [] + [d] == [d];
    } else {
      TextSnoc(ds[1..], d, k + 1, r);
      assert (ds + [d])[1..] == ds[1..] + [d];
    }
  }

  /** Decimal text: commas in every fourth place counted from the end, digit j in place j + j / 3. */
  lemma {:induction false} TextShape(ds: seq<nat>, k: nat)
    requires Small(ds)
    requires |ds| > 0
    ensures |Text(ds, k, 10)| == Place(k + |ds| - 1) + 1 - (if k == 0 then 0 else Place(k - 1) + 1)
  {
    hide DigitChar;
    assert |Comma(k, 10) + [DigitChar(ds[0])]| == Place(k) + 1 - (if k == 0 then 0 else Place(k - 1) + 1)
      by { PlaceStep(k); }
    if |ds| > 1 { TextShape(ds[1..], k + 1); }
  }

  /** Place of decimal digit k in the buffer. */
  function Place(k: nat): nat { k + k / 3 }

  lemma PlaceStep(k: nat)
    ensures k > 0 ==> Place(k) == Place(k - 1) + 1 + (if k % 3 == 0 then 1 else 0)
  {
  }

  /** Where the characters of a decimal text stand: commas fall after every three digits. */
  lemma {:induction false} TextPlaces(ds: seq<nat>, j: nat)
    requires Small(ds)
    requires j < |ds|
    ensures Place(j) < |Text(ds, 0, 10)| && Text(ds, 0, 10)[Place(j)] == DigitChar(ds[j])
    ensures j > 0 && j % 3 == 0 ==> Text(ds, 0, 10)[Place(j) - 1] == ','
    decreases |ds|
  {
    hide DigitChar;
    var n := |ds| - 1;
    var front := ds[..n];
    assert ds == front + [ds[n]];
    TextSnoc(front, ds[n], 0, 10);
    if n > 0 { TextShape(front, 0); }
    PlaceStep(n);
    if j < n { TextPlaces(front, j); }
  }

  /** Other radices have no commas. */
  lemma {:induction false} TextPlain(ds: seq<nat>, k: nat, r: nat)
    requires r != 10 && Small(ds)
    ensures |Text(ds, k, r)| == |ds| && forall j | 0 <= j < |ds| :: Text(ds, k, r)[j] == DigitChar(ds[j])
  {
    hide DigitChar;
    if ds != [] { TextPlain(ds[1..], k + 1, r); }
  }

  // ---- Reading text back ----

  /** The number denoted by a text, most significant digit first; other characters are skipped. */
  function ReadText(s: seq<char>, r: nat): nat {
    if s == [] then 0
    else
      var c, rest := s[|s| - 1], ReadText(s[..|s| - 1], r);
      if IsDigit(c) then DigitOf(c) + r * rest else rest
  }

  function Reverse(s: seq<char>): (t: seq<char>)
    ensures |t| == |s|
  {
    if s == [] then [] else Reverse(s[1..]) + [s[0]]
  }

  lemma ReadSnoc(s: seq<char>, c: char, r: nat)
    ensures ReadText(s + [c], r) == if IsDigit(c) then DigitOf(c) + r * ReadText(s, r) else ReadText(s, r)
  {
    assert (s + [c])[..|s|] == s;
  }

  lemma ReverseCons(c: char, s: seq<char>)
    ensures Reverse([c] + s) == Reverse(s) + [c]
  {
    assert ([c] + s)[1..] == s;
  }

  lemma {:induction false} ReadReversed(ds: seq<nat>, k: nat, r: nat)
    requires Small(ds)
    ensures ReadText(Reverse(Text(ds, k, r)), r) == Value(ds, r)
  {
    hide DigitChar, DigitOf, IsDigit, ReadText;
    if ds == [] {
      ReadNothing(r);
    } else {
      var rest, c := Text(ds[1..], k + 1, r), DigitChar(ds[0]);
      ReadReversed(ds[1..], k + 1, r);
      DigitChars(ds[0]);
      ReverseCons(c, rest);
      ReadSnoc(Reverse(rest), c, r);
      var m := [c] + rest;
      if Comma(k, r) != [] {
        assert Text(ds, k, r) == [','] + m;
        ReverseCons(',', m);
        CommaIsNoDigit();
        ReadSnoc(Reverse(m), ',', r);
      } else {
        assert Text(ds, k, r) == m;
      }
    }
  }

  lemma ReadNothing(r: nat)
    ensures ReadText([], r) == 0
  {
  }

  lemma CommaIsNoDigit()
    ensures !IsDigit(',') && !IsDigit('-') && !IsDigit(' ') && IsDigit('0') && DigitOf('0') == 0
  {
  }

  function Repeat(c: char, n: nat): (s: seq<char>)
    ensures |s| == n
  {
    if n == 0 then [] else Repeat(c, n - 1) + [c]
  }

  /** Padding in front does not change the number read. */
  lemma {:induction false} ReadPaddedLeft(c: char, n: nat, s: seq<char>, r: nat)
    requires c == ' ' || c == '0'
    ensures ReadText(Repeat(c, n) + s, r) == ReadText(s, r)
    decreases n + |s|
  {
    hide IsDigit, DigitOf;
    if s == [] {
      ReadPadding(c, n, [], r);
      assert Repeat(c, n) + [] == Repeat(c, n) && [] + Repeat(c, n) == Repeat(c, n);
      assert Power(r, n) * 0 == 0;
    } else {
      var front, last := s[..|s| - 1], s[|s| - 1];
      ReadPaddedLeft(c, n, front, r);
      ReadSnoc(Repeat(c, n) + front, last, r);
      ReadSnoc(front, last, r);
      assert Repeat(c, n) + s == Repeat(c, n) + front + [last] && s == front + [last];
    }
  }

  /** Padding behind multiplies the number read by r for every zero. */
  lemma {:induction false} ReadPadding(c: char, n: nat, s: seq<char>, r: nat)
    requires c == ' ' || c == '0'
    ensures ReadText(s + Repeat(c, n), r) == (if c == '0' then Power(r, n) * ReadText(s, r) else ReadText(s, r))
    decreases n
  {
    hide IsDigit, DigitOf, ReadText;
    CommaIsNoDigit();
    if n == 0 {
      assert s + Repeat(c, 0) == s;
    } else {
      ReadPadding(c, n - 1, s, r);
      assert s + Repeat(c, n) == s + Repeat(c, n - 1) + [c];
      ReadSnoc(s + Repeat(c, n - 1), c, r);
      PowerMul(r, n, ReadText(s, r));
    }
  }

  lemma PowerMul(r: nat, n: nat, x: nat)
    requires n > 0
    ensures r * (Power(r, n - 1) * x) == Power(r, n) * x
  {
    var p := Power(r, n - 1);
    assert r * (p * x) == r * p * x;
  }
}

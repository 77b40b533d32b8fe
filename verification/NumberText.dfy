/** What sysPutNumber (wb_uart.c) prints, and when the printed text determines the number. */
module NumberText {
  import opened Bits
  import opened Number

  type Int = i: int | -0x8000_0000 <= i < 0x8000_0000

  const BUFFER: nat := 40
  const WIDEST: nat := 80

  /** The radices that FormatItem passes; a negative one asks for a sign. */
  predicate IsRadix(r: int) {
    r == -10 || r == 10 || r == 16 || r == 8 || r == 3
  }

  function Abs(i: int): nat {
    if i < 0 then -i else i
  }

  function Base(radix: int): nat {
    Abs(radix)
  }

  function Signum(negative: bool, m: int): int {
    if negative then -m else m
  }

  predicate Negative(value: Int, radix: int) {
    radix < 0 && value < 0
  }

  /** The unsigned value that is printed. */
  function Magnitude(value: Int, radix: int): Word {
    Wrap(if Negative(value, radix) then Abs(value) else value)
  }

  /** The number meant: the value itself with a sign, otherwise its bits read as an unsigned word. */
  function Meaning(value: Int, radix: int): int {
    if radix < 0 then value else Wrap(value)
  }

  function DigitsOf(value: Int, radix: int): (ds: seq<nat>)
    requires IsRadix(radix)
    ensures Small(ds)
  {
    Digits(Magnitude(value, radix), Base(radix))
  }

  /** Buffer contents when all digits, commas and the sign have been stored. */
  function Body(value: Int, radix: int): seq<char>
    requires IsRadix(radix)
  {
    Text(DigitsOf(value, radix), 0, Base(radix)) + if Negative(value, radix) then ['-'] else []
  }

  /** The field width in use: a width above 80 counts as none. */
  function FieldSize(width: Int): (n: nat)
    ensures n <= WIDEST
  {
    if Abs(width) > WIDEST then 0 else Abs(width)
  }

  function Fill(fill: char): char {
    if fill == '\0' then ' ' else fill
  }

  function Padding(value: Int, radix: int, width: Int): nat
    requires IsRadix(radix)
  {
    if FieldSize(width) <= |Body(value, radix)| then 0 else FieldSize(width) - |Body(value, radix)|
  }

  /** The printed field. A negative width asks for left justification. */
  function Output(value: Int, radix: int, width: Int, fill: char): seq<char>
    requires IsRadix(radix)
  {
    var pad, body := Repeat(Fill(fill), Padding(value, radix, width)), Reverse(Body(value, radix));
    if width < 0 then body + pad else pad + body
  }

  // ---- Sizes ----

  lemma AtMost21Digits(value: Int, radix: int)
    requires IsRadix(radix)
    ensures |DigitsOf(value, radix)| <= (if Base(radix) == 10 then 10 else 21)
  {
    hide Digits;
    PowersExceedWord();
    var u := Magnitude(value, radix);
    hide Power, Magnitude;
    DigitsBound(u, Base(radix), if Base(radix) == 3 then 21 else if Base(radix) == 8 then 11
        else if Base(radix) == 10 then 10 else 8);
  }

  /** The buffer is never exceeded: at most 22 of its 40 places are used. */
  lemma BodyFits(value: Int, radix: int)
    requires IsRadix(radix)
    ensures 1 <= |Body(value, radix)| <= 22 <= BUFFER
  {
    hide Text;
    AtMost21Digits(value, radix);
    var ds := DigitsOf(value, radix);
    hide DigitsOf;
    if Base(radix) == 10 { TextShape(ds, 0); } else { TextPlain(ds, 0, Base(radix)); }
  }

  /** The field is as wide as asked for, or as wide as the number if that is wider. */
  lemma OutputLength(value: Int, radix: int, width: Int, fill: char)
    requires IsRadix(radix) && -80 <= width <= 80
    ensures var w, n := Abs(width), |Body(value, radix)|;
            |Output(value, radix, width, fill)| == if w > n then w else n
  {
    hide Body;
  }

  // ---- Commas ----

  /** In decimal text a comma stands in every fourth place counted from the end, and nowhere else. */
  lemma CommasEveryThree(ds: seq<nat>, k: nat)
    requires |ds| > 0 && Small(ds) && k < |Text(ds, 0, 10)|
    ensures Text(ds, 0, 10)[k] == ',' <==> k % 4 == 3
  {
    hide DigitChar, Text;
    TextShape(ds, 0);
    if k % 4 == 3 {
      var j := 3 * (k / 4) + 3;
      assert Place(j) == k + 1 && Place(j - 1) == k - 1;
      TextPlaces(ds, if j < |ds| then j else 0);
    } else {
      var j := k - k / 4;
      assert Place(j) == k;
      TextPlaces(ds, if j < |ds| then j else 0);
      DigitChars(ds[if j < |ds| then j else 0]);
    }
  }

  lemma {:induction false} ReverseAt(s: seq<char>, k: nat)
    requires k < |s|
    ensures Reverse(s)[k] == s[|s| - 1 - k]
  {
    if k < |s| - 1 { ReverseAt(s[1..], k); }
  }

  predicate IsHex(c: char) {
    c in "0123456789ABCDEF"
  }

  /** The last character is the leading digit. */
  lemma LastCharacter(ds: seq<nat>, r: nat)
    requires |ds| > 0 && Small(ds)
    ensures var t := Text(ds, 0, r); |t| > 0 && t[|t| - 1] == DigitChar(ds[|ds| - 1])
  {
    hide DigitChar;
    var n := |ds| - 1;
    TextSnoc(ds[..n], ds[n], 0, r);
    assert ds[..n] + [ds[n]] == ds;
  }

  /** Only digits and commas, and commas in decimal text only. */
  lemma PlaceCharacter(ds: seq<nat>, r: nat, k: nat)
    requires |ds| > 0 && Small(ds) && k < |Text(ds, 0, r)|
    ensures if r == 10 && k % 4 == 3 then Text(ds, 0, r)[k] == ',' else IsHex(Text(ds, 0, r)[k])
  {
    hide DigitChar, Text;
    if r != 10 {
      TextPlain(ds, 0, r);
      DigitChars(ds[k]);
    } else {
      TextShape(ds, 0);
      if k % 4 == 3 { CommasEveryThree(ds, k); } else {
        var j := k - k / 4;
        assert Place(j) == k;
        TextPlaces(ds, j);
        DigitChars(ds[j]);
      }
    }
  }

  /** A number without a field width: a '-' in front if it is negative and signed, then digits, in decimal with a
      comma before every three from the end, and no leading zero unless it is 0. */
  lemma PlainShape(value: Int, radix: int, k: nat)
    requires IsRadix(radix)
    ensures var s := Output(value, radix, 0, ' ');
            var n := if value < 0 && radix == -10 then 1 else 0;
            && n < |s| && (n == 1 ==> s[0] == '-') && (s[n] == '0' <==> value == 0)
            && (k < |s| - n ==>
                  if (radix == 10 || radix == -10) && k % 4 == 3 then s[|s| - 1 - k] == ','
                  else IsHex(s[|s| - 1 - k]))
  {
    hide Body, IsHex, Reverse, Output;
    var n := if value < 0 && radix == -10 then 1 else 0;
    var t := BodyParts(value, radix, n, k);
    SignedReverse(t, n, k);
    PlainIsBody(value, radix);
  }

  /** The digits and commas of a number, last character first, with n signs behind them. */
  lemma BodyParts(value: Int, radix: int, n: nat, k: nat) returns (t: seq<char>)
    requires IsRadix(radix) && n == if value < 0 && radix == -10 then 1 else 0
    ensures |t| > 0 && Body(value, radix) == t + if n == 1 then ['-'] else []
    ensures t[|t| - 1] == '0' <==> value == 0
    ensures k < |t| ==> if (radix == 10 || radix == -10) && k % 4 == 3 then t[k] == ',' else IsHex(t[k])
  {
    var ds, r := DigitsOf(value, radix), Base(radix);
    t := Text(ds, 0, r);
    LastCharacter(ds, r);
    if k < |t| { PlaceCharacter(ds, r, k); }
    LeadingDigit(Magnitude(value, radix), r);
    Magnitudes(value, radix);
    ZeroChar(ds[|ds| - 1]);
    hide Text, Digits, DigitChar, Magnitude, IsHex;
  }

  /** A text with n signs behind it, reversed. */
  lemma SignedReverse(t: seq<char>, n: nat, k: nat)
    requires |t| > 0 && n <= 1
    ensures var s := Reverse(t + if n == 1 then ['-'] else []);
            && |s| == |t| + n && (n == 1 ==> s[0] == '-') && s[n] == t[|t| - 1]
            && (k < |t| ==> s[|s| - 1 - k] == t[k])
  {
    var b := t + if n == 1 then ['-'] else [];
    ReverseAt(b, 0);
    ReverseAt(b, n);
    if k < |t| { ReverseAt(b, |b| - 1 - k); }
    hide Reverse;
  }

  lemma ZeroChar(d: nat)
    requires d < 16
    ensures DigitChar(d) == '0' <==> d == 0
  {
  }

  lemma PlainIsBody(value: Int, radix: int)
    requires IsRadix(radix)
    ensures Output(value, radix, 0, ' ') == Reverse(Body(value, radix))
  {
    NoPadding(Reverse(Body(value, radix)));
    hide Body, Reverse, Repeat;
  }

  lemma NoPadding(s: seq<char>)
    ensures Repeat(' ', 0) + s == s && Repeat('0', 0) + s == s
  {
  }

  // ---- Reading back ----

  /** Drop fill and commas, read the digits, and take a '-' anywhere in the field as the sign. */
  function ReadNumber(s: seq<char>, radix: int): int {
    Signum('-' in s, ReadText(s, Base(radix)))
  }

  lemma {:induction false} NoSignInText(ds: seq<nat>, k: nat, r: nat)
    requires Small(ds)
    ensures '-' !in Text(ds, k, r)
  {
    hide DigitChar;
    if ds != [] {
      DigitChars(ds[0]);
      NoSignInText(ds[1..], k + 1, r);
    }
  }

  lemma {:induction false} SameCharacters(s: seq<char>, c: char)
    ensures c in Reverse(s) <==> c in s
  {
    if s != [] {
      SameCharacters(s[1..], c);
      assert s == [s[0]] + s[1..];
    }
  }

  lemma {:induction false} OnlyFill(c: char, n: nat, d: char)
    requires c != d
    ensures d !in Repeat(c, n)
  {
    if n > 0 { OnlyFill(c, n - 1, d); }
  }

  lemma {:induction false} SkipSign(s: seq<char>, r: nat)
    ensures ReadText(['-'] + s, r) == ReadText(s, r)
    decreases |s|
  {
    hide IsDigit, DigitOf;
    if s == [] {
      assert ['-'] + s == [] + ['-'];
      ReadSnoc([], '-', r);
      CommaIsNoDigit();
    } else {
      var front, last := s[..|s| - 1], s[|s| - 1];
      SkipSign(front, r);
      assert ['-'] + s == ['-'] + front + [last] && s == front + [last];
      ReadSnoc(['-'] + front, last, r);
      ReadSnoc(front, last, r);
    }
  }

  lemma {:induction false} ReverseSnoc(s: seq<char>, c: char)
    ensures Reverse(s + [c]) == [c] + Reverse(s)
  {
    if s == [] {
      assert [] + [c] == [c] && [c][1..] == [];
    } else {
      ReverseSnoc(s[1..], c);
      assert (s + [c])[1..] == s[1..] + [c];
    }
  }

  /** The body carries the magnitude, and a sign exactly when the number is negative. */
  lemma BodyReads(value: Int, radix: int)
    requires IsRadix(radix)
    ensures ReadText(Reverse(Body(value, radix)), Base(radix)) == Magnitude(value, radix)
    ensures '-' in Reverse(Body(value, radix)) <==> Negative(value, radix)
  {
    hide Text, Reverse, ReadText, Digits, Value, Magnitude;
    var ds, r := DigitsOf(value, radix), Base(radix);
    var text := Text(ds, 0, r);
    ReadReversed(ds, 0, r);
    DigitsValue(Magnitude(value, radix), r);
    NoSignInText(ds, 0, r);
    SameCharacters(Body(value, radix), '-');
    if Negative(value, radix) {
      ReverseSnoc(text, '-');
      SkipSign(Reverse(text), r);
    } else {
      assert text + [] == text;
    }
  }

  /** Zeros on the right change the number unless it is zero. */
  lemma PowerGrows(r: nat, n: nat, m: nat)
    requires r >= 2
    ensures Power(r, n) * m == m <==> n == 0 || m == 0
  {
    PowerAtLeast(r, n);
    var p := Power(r, n);
    if m > 0 && p >= 2 { assert p * m == m + (p - 1) * m && (p - 1) * m > 0; }
  }

  lemma {:induction false} PowerAtLeast(r: nat, n: nat)
    requires r >= 2
    ensures Power(r, n) >= 1 && (n > 0 ==> Power(r, n) >= 2)
  {
    if n > 0 { PowerAtLeast(r, n - 1); }
  }

  lemma Magnitudes(value: Int, radix: int)
    ensures Meaning(value, radix) == Signum(Negative(value, radix), Magnitude(value, radix))
    ensures Magnitude(value, radix) == 0 <==> value == 0
  {
    WrapSmall(Abs(value));
  }

  /** Reading a printed field back gives the number, for every value and radix, except that zeros added
      on the right of a left-justified field other than zero read as digits. */
  lemma ReadsBack(value: Int, radix: int, width: Int, fill: char)
    requires IsRadix(radix) && (fill == '\0' || fill == ' ' || fill == '0')
    ensures ReadNumber(Output(value, radix, width, fill), radix) == Meaning(value, radix)
       <==> !(width < 0 && fill == '0' && Padding(value, radix, width) > 0 && value != 0)
  {
    hide Body, Reverse, ReadText, Padding, Power, Magnitude, Meaning;
    BodyReads(value, radix);
    Magnitudes(value, radix);
    var n, c, body, m := Padding(value, radix, width), Fill(fill), Reverse(Body(value, radix)), Magnitude(value, radix);
    OnlyFill(c, n, '-');
    if width < 0 {
      ReadPadding(c, n, body, Base(radix));
      PowerGrows(Base(radix), n, m);
    } else {
      ReadPaddedLeft(c, n, body, Base(radix));
    }
  }
}

/** The text that sysPrintf and sysprintf (wb_uart.c) produce, as a recursive function of the format. */
module Format {
  import opened Bits
  import opened Number
  import opened NumberText

  /** The characters before the terminating zero of a C string. */
  type CString = s: seq<char> | |s| < TWO32 && forall k | 0 <= k < |s| :: s[k] != '\0'

  /** One variable argument: its value as an int, and the string found there when it is used as a pointer. */
  datatype Arg = Arg(word: Int, text: CString)

  predicate IsFlag(c: char) {
    '0' <= c <= '9' || c == '-'
  }

  /** How many flag and width characters f begins with. */
  function Flags(f: seq<char>): (n: nat)
    ensures n <= |f| && (forall k | 0 <= k < n :: IsFlag(f[k])) && (n < |f| ==> !IsFlag(f[n]))
  {
    if f == [] || !IsFlag(f[0]) then 0 else 1 + Flags(f[1..])
  }

  function AddDigit(width: Int, c: char): Int
    requires '0' <= c <= '9'
  {
    Signed(Wrap(width * 10 + (c - '0') as int))
  }

  /** The field width written in the flags, in 32-bit arithmetic. */
  function Width(flags: seq<char>): Int {
    if flags == [] then 0
    else
      var n := |flags| - 1;
      if '0' <= flags[n] <= '9' then AddDigit(Width(flags[..n]), flags[n]) else Width(flags[..n])
  }

  function ItemFill(flags: seq<char>): char {
    if flags != [] && flags[0] == '0' then '0' else ' '
  }

  /** The radix that a conversion selects; an unknown one prints in radix 3. */
  function RadixOf(conv: char): (r: int)
    ensures IsRadix(r)
  {
    match conv
    case 'd' => -10
    case 'i' => -10
    case 'u' => 10
    case 'x' => 16
    case 'X' => 16
    case 'o' => 8
    case _ => 3
  }

  /** The signed width given to sysPutNumber; the most negative int negates to itself. */
  function Justified(width: Int, left: bool): Int {
    if left then Signed(Wrap(0 - width as int)) else width
  }

  function Justify(text: seq<char>, pad: seq<char>, left: bool): seq<char> {
    if left then text + pad else pad + text
  }

  function CharPad(width: Int): nat {
    if width > 0 then width - 1 else 0
  }

  /** The comparison with the string length is unsigned, and there is no upper limit. */
  function StringPad(width: Int, n: Word): nat {
    if Wrap(width) > n then Wrap(width) - n else 0
  }

  function Item(flags: seq<char>, conv: char, a: Arg): seq<char> {
    var left, fill, width := '-' in flags, ItemFill(flags), Width(flags);
    if conv == '%' then ['%']
    else if conv == 'c' then Justify([(a.word % 0x80) as char], Repeat(fill, CharPad(width)), left)
    else if conv == 's' then Justify(a.text, Repeat(fill, StringPad(width, |a.text|)), left)
    else Output(a.word, RadixOf(conv), Justified(width, left), fill)
  }

  /** The length of the first piece of a format: one ordinary character, or an item from its '%' to its
      conversion character. */
  function Piece(f: seq<char>): (n: nat)
    requires f != []
    ensures n > 0
  {
    if f[0] != '%' then 1 else Flags(f[1..]) + 2
  }

  /** An item takes one argument, "%%" included. */
  function Takes(f: seq<char>): nat
    requires f != []
  {
    if f[0] != '%' then 0 else 1
  }

  /** What the first piece prints. */
  function First(f: seq<char>, args: seq<Arg>): seq<char>
    requires f != [] && Piece(f) <= |f| && Takes(f) <= |args|
  {
    var n := Piece(f);
    if f[0] != '%' then [f[0]] else Item(f[1..n - 1], f[n - 1], args[0])
  }

  /** No item is cut off by the end of the format. */
  predicate WellFormed(f: seq<char>) {
    f == [] || (Piece(f) <= |f| && WellFormed(f[Piece(f)..]))
  }

  /** The number of items. */
  function Items(f: seq<char>): nat
    requires WellFormed(f)
  {
    if f == [] then 0 else Takes(f) + Items(f[Piece(f)..])
  }

  function Render(f: seq<char>, args: seq<Arg>): seq<char>
    requires WellFormed(f) && Items(f) <= |args|
  {
    if f == [] then [] else First(f, args) + Render(f[Piece(f)..], args[Takes(f)..])
  }

  // ---- Properties ----

  lemma {:induction false} FlagsAppend(f: seq<char>, g: seq<char>)
    requires Flags(f) < |f|
    ensures Flags(f + g) == Flags(f)
  {
    hide IsFlag;
    assert (f + g)[0] == f[0];
    if IsFlag(f[0]) {
      FlagsAppend(f[1..], g);
      assert (f + g)[1..] == f[1..] + g;
    }
  }

  /** Text behind a complete piece does not change the piece. */
  lemma PieceAppend(f: seq<char>, g: seq<char>, args: seq<Arg>)
    requires f != [] && Piece(f) <= |f| && Takes(f) <= |args|
    ensures Piece(f + g) == Piece(f) && Takes(f + g) == Takes(f) && First(f + g, args) == First(f, args)
    ensures (f + g)[Piece(f)..] == f[Piece(f)..] + g
  {
    hide Item;
    assert (f + g)[1..] == f[1..] + g && (f + g)[0] == f[0];
    if f[0] == '%' {
      FlagsAppend(f[1..], g);
      var n := Piece(f);
      assert (f + g)[1..n - 1] == f[1..n - 1];
    }
  }

  /** Printing f followed by g prints f and then g, with the arguments that f leaves. */
  lemma {:induction false} RenderAppend(f: seq<char>, g: seq<char>, args: seq<Arg>)
    requires WellFormed(f) && WellFormed(g) && Items(f) + Items(g) <= |args|
    ensures WellFormed(f + g) && Items(f + g) == Items(f) + Items(g)
    ensures Render(f + g, args) == Render(f, args) + Render(g, args[Items(f)..])
    decreases |f|
  {
    hide Piece, Takes, First;
    if f == [] {
      assert f + g == g && args[0..] == args;
    } else {
      var n, t := Piece(f), Takes(f);
      RenderAppend(f[n..], g, args[t..]);
      PieceAppend(f, g, args);
      assert args[t..][Items(f) - t..] == args[Items(f)..];
    }
  }

  /** Arguments beyond the last item are not looked at. */
  lemma {:induction false} ExtraArguments(f: seq<char>, args: seq<Arg>, extra: seq<Arg>)
    requires WellFormed(f) && Items(f) <= |args|
    ensures Render(f, args + extra) == Render(f, args)
    decreases |f|
  {
    hide Piece, Item;
    if f != [] {
      var n, t := Piece(f), Takes(f);
      ExtraArguments(f[n..], args[t..], extra);
      assert (args + extra)[t..] == args[t..] + extra;
    }
  }

  /** A format without '%' prints itself. */
  lemma {:induction false} LiteralText(f: seq<char>)
    requires '%' !in f
    ensures WellFormed(f) && Items(f) == 0 && Render(f, []) == f
  {
    hide Item;
    if f != [] {
      LiteralText(f[1..]);
      assert f == [f[0]] + f[1..];
    }
  }

  predicate IsNumeric(conv: char) {
    conv != '%' && conv != 'c' && conv != 's'
  }

  /** An item runs from its '%' over digits and '-' to the first other character, and takes one argument, "%%"
      included; any other character is a piece of its own. */
  lemma ItemExtent(f: seq<char>)
    requires f != []
    ensures f[0] != '%' ==> Piece(f) == 1 && Takes(f) == 0
    ensures f[0] == '%' ==>
              && Takes(f) == 1 && 2 <= Piece(f) <= |f| + 1
              && (forall k | 1 <= k < Piece(f) - 1 :: f[k] in "0123456789-")
              && (Piece(f) <= |f| ==> f[Piece(f) - 1] !in "0123456789-")
  {
    var g := f[1..];
    forall c: char ensures IsFlag(c) <==> c in "0123456789-" { FlagCharacters(c); }
    hide IsFlag;
    if f[0] == '%' {
      forall k | 1 <= k < Piece(f) - 1 ensures f[k] in "0123456789-" { assert f[k] == g[k - 1]; }
    }
  }

  lemma FlagCharacters(c: char)
    ensures IsFlag(c) <==> c in "0123456789-"
  {
    var s := "0123456789-";
    if '0' <= c <= '9' { assert s[(c - '0') as int] == c; }
    assert s[10] == '-';
  }

  /** The field width is the decimal number that the flag digits denote, as a 32-bit int. */
  lemma {:induction false} WidthIsDecimal(flags: seq<char>)
    requires forall k | 0 <= k < |flags| :: flags[k] in "0123456789-"
    ensures Width(flags) == Signed(Wrap(ReadText(flags, 10)))
    ensures ReadText(flags, 10) < 0x8000_0000 ==> Width(flags) == ReadText(flags, 10)
  {
    hide Signed, Wrap, IsDigit, DigitOf, AddDigit;
    if flags == [] {
      ZeroWidth();
    } else {
      var n := |flags| - 1;
      WidthIsDecimal(flags[..n]);
      FlagCharacters(flags[n]);
      if flags[n] != '-' { NextDigit(ReadText(flags[..n], 10), flags[n]); } else { CommaIsNoDigit(); }
    }
    SignedSmall(ReadText(flags, 10));
  }

  lemma ZeroWidth()
    ensures Signed(Wrap(0)) == 0
  {
  }

  lemma SignedSmall(x: nat)
    ensures x < 0x8000_0000 ==> Signed(Wrap(x)) == x
  {
  }

  lemma NextDigit(x: nat, c: char)
    requires '0' <= c <= '9'
    ensures IsDigit(c) && AddDigit(Signed(Wrap(x)), c) == Signed(Wrap(DigitOf(c) + 10 * x))
  {
    var q := x / TWO32;
    var y, d := Signed(Wrap(x)), DigitOf(c);
    assert x == q * TWO32 + Wrap(x);
    assert (c - '0') as int == d;
    var h := if Wrap(x) < 0x8000_0000 then q else q + 1;
    assert x == y + h * TWO32;
    WrapMultiples(y * 10 + d, 10 * h);
    assert d + 10 * x == y * 10 + d + TWO32 * (10 * h);
  }

  lemma WrapMultiples(x: int, k: int)
    ensures Wrap(x + TWO32 * k) == Wrap(x)
  {
  }

  /** Every item is what it prints without flags, filled up with zeros or blanks to the field width: behind for
      '-', else in front. A character or string takes the width as written, a number one from -80 to 80 only,
      and a negative width (from an overflow) puts the fill of a number on the other side. */
  lemma ItemLayout(flags: seq<char>, conv: char, a: Arg)
    requires conv != '%' && forall k | 0 <= k < |flags| :: flags[k] in "0123456789-"
    ensures Item(flags, conv, a)
         == Filled(Item([], conv, a), conv, '-' in flags, Signed(Wrap(ReadText(flags, 10))),
                   if flags != [] && flags[0] == '0' then '0' else ' ')
  {
    WidthIsDecimal(flags);
    NoWidth();
    if IsNumeric(conv) { NumberLayout(flags, conv, a); } else { TextLayout(flags, conv, a); }
    assert ItemFill(flags) == if flags != [] && flags[0] == '0' then '0' else ' ';
    hide Item, Width, ReadText, Repeat, Signed, Wrap, ItemFill, Filled;
  }

  /** A text in a field of width w. */
  function Filled(plain: seq<char>, conv: char, left: bool, w: Int, fill: char): seq<char> {
    var size := if conv == 'c' then w
                else if conv == 's' then Wrap(w)
                else if 0 <= w <= 80 then w else if -80 <= w < 0 then -w else 0;
    var behind := if left then conv == 'c' || conv == 's' || w > 0 else conv != 'c' && conv != 's' && w < 0;
    var pad := Repeat(fill, if size > |plain| then size - |plain| else 0);
    if behind then plain + pad else pad + plain
  }

  lemma NoWidth()
    ensures Width([]) == 0
  {
  }

  /** Characters, strings and "%%". */
  lemma TextLayout(flags: seq<char>, conv: char, a: Arg)
    requires conv == 'c' || conv == 's'
    ensures Item(flags, conv, a) == Filled(Item([], conv, a), conv, '-' in flags, Width(flags), ItemFill(flags))
  {
    PlainText(a);
    hide Width, Repeat, ItemFill, Output;
  }

  /** Without flags they print as they are. */
  lemma PlainText(a: Arg)
    ensures Item([], 'c', a) == [(a.word % 0x80) as char]
    ensures Item([], 's', a) == a.text
    ensures forall flags :: Item(flags, '%', a) == ['%']
  {
    NoWidth();
    NoFill(a.text);
    NoFill([(a.word % 0x80) as char]);
    hide Width, Repeat, ItemFill, Output;
  }

  lemma NoFill(s: seq<char>)
    ensures forall c :: Repeat(c, 0) + s == s && s + Repeat(c, 0) == s
  {
  }

  lemma NumberLayout(flags: seq<char>, conv: char, a: Arg)
    requires IsNumeric(conv) && Width([]) == 0
    ensures Item(flags, conv, a) == Filled(Item([], conv, a), conv, '-' in flags, Width(flags), ItemFill(flags))
  {
    hide Width, RadixOf, Body, Wrap, Reverse, Repeat, Justified, Signed;
    var r := RadixOf(conv);
    var body := Reverse(Body(a.word, r));
    NoFill(body);
    JustifiedIs(Width(flags), '-' in flags);
    JustifiedIs(0, false);
    assert |body| == |Body(a.word, r)|;
  }

  lemma JustifiedIs(w: Int, left: bool)
    ensures !left ==> Justified(w, left) == w
    ensures left && w > -0x8000_0000 ==> Justified(w, left) == -w
    ensures left && w == -0x8000_0000 ==> Justified(w, left) == w
  {
  }

  /** Every numeric item reads back as its argument: as an int in radix 10 for 'd' and 'i', as an unsigned word in
      radix 10 for 'u', 16 for 'x' and 'X', 8 for 'o' and 3 for any other letter. The exception is a number
      other than 0 that has got zeros on the right: flags that begin with '0' and fill behind it. */
  lemma ItemReadsBack(flags: seq<char>, conv: char, a: Arg)
    requires IsNumeric(conv) && forall k | 0 <= k < |flags| :: flags[k] in "0123456789-"
    ensures var radix := if conv == 'd' || conv == 'i' then -10 else if conv == 'u' then 10
                         else if conv == 'x' || conv == 'X' then 16 else if conv == 'o' then 8 else 3;
            var meant := if a.word < 0 && conv != 'd' && conv != 'i' then a.word + 0x1_0000_0000 else a.word;
            var w := Signed(Wrap(ReadText(flags, 10)));
            ReadNumber(Item(flags, conv, a), radix) == meant
            <==> !(flags != [] && flags[0] == '0' && (if '-' in flags then w > 0 else w < 0)
                   && |Item(flags, conv, a)| > |Item([], conv, a)| && a.word != 0)
  {
    var r, w, left := RadixOf(conv), Width(flags), '-' in flags;
    WidthIsDecimal(flags);
    WidthIsDecimal([]);
    MeaningIs(a.word, r);
    ReadsBack(a.word, r, Justified(w, left), ItemFill(flags));
    JustifiedIs(w, left);
    JustifiedIs(0, false);
    PaddingShows(a.word, r, Justified(w, left), ItemFill(flags));
    hide Width, Justified, Output, Padding, ReadNumber, Meaning, ReadText, Signed, Wrap, ItemFill;
  }

  lemma MeaningIs(value: Int, radix: int)
    ensures Meaning(value, radix) == if value < 0 && radix >= 0 then value + 0x1_0000_0000 else value
  {
  }

  /** Padding makes the field longer than the number. */
  lemma PaddingShows(value: Int, radix: int, width: Int, fill: char)
    requires IsRadix(radix)
    ensures Padding(value, radix, width) > 0 <==> |Output(value, radix, width, fill)| > |Output(value, radix, 0, ' ')|
    ensures Padding(value, radix, width) > 0 ==> -80 <= width <= 80
  {
    hide Body, Reverse, Repeat;
  }

  /** An instance of the exception: "%0-5d" prints 12 as "12000". */
  lemma LeftZeroFill()
    ensures Item("0-5", 'd', Arg(12, "")) == "12000"
    ensures ReadNumber(Item("0-5", 'd', Arg(12, "")), -10) == 12000
  {
    hide Signed, ReadText;
    assert Width("0") == 0 && Width("0-") == 0 && Width("0-5") == 5 by { WidthOfExample(); }
    assert Justified(5, true) == -5 by { JustifiedExample(); }
    assert Body(12, -10) == "21" by { BodyExample(); }
    hide Width, Justified, Body;
    var left := "0-5";
    assert left[1] == '-';
    assert Reverse("21") == "12" by { assert "21"[1..] == "1" && "1"[1..] == ""; }
    assert Repeat('0', 3) == "000";
    assert "12" + "000" == "12000";
    ReadExample();
  }

  lemma WidthOfExample()
    ensures Width("0") == 0 && Width("0-") == 0 && Width("0-5") == 5
  {
    assert "0"[..0] == [] && "0-"[..1] == "0" && "0-5"[..2] == "0-";
  }

  lemma JustifiedExample()
    ensures Justified(5, true) == -5
  {
  }

  lemma BodyExample()
    ensures Body(12, -10) == "21"
  {
    assert Digits(12, 10) == [2, 1];
    assert [2, 1][1..] == [1] && [1][1..] == [];
  }

  lemma ReadExample()
    ensures ReadText("12000", 10) == 12000 && '-' !in "12000"
  {
    assert "12000"[..4] == "1200" && "1200"[..3] == "120" && "120"[..2] == "12" && "12"[..1] == "1" && "1"[..0] == "";
    assert ReadText("1", 10) == 1;
    assert ReadText("12", 10) == 12;
    assert ReadText("120", 10) == 120;
    assert ReadText("1200", 10) == 1200;
  }
}

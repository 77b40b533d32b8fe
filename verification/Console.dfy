/** The printing code of wb_uart.c: sysPutNumber, FormatItem, and the loop that sysPrintf (buffered mode)
    and sysprintf (polled mode) share. */
module Console {
  import opened Bits
  import opened Division
  import opened Format
  import opened Number
  import opened NumberText
  import Uart
  import UartRing

  /** `buffered` is _sys_bIsUseUARTInt. `put` lists the arguments of all calls of _PutChar_f. */
  class Printer {
    const buffered: bool
    const uart: Uart.Transmitter
    var polled: seq<char>
    ghost var put: seq<char>

    ghost predicate Valid()
      reads this, uart, uart.buf
    {
      && uart.Valid() && uart.pc == UartRing.Idle
      && if buffered then uart.done == put else polled == UartRing.ExpandAll(put)
    }

    constructor (buffered: bool, others: nat)
      ensures Valid() && put == [] && this.buffered == buffered && fresh(uart) && fresh(uart.buf)
    {
      this.buffered, polled, put := buffered, [], [];
      uart := new Uart.Transmitter(others);
    }

    /** _PutChar_f. */
    method PutChar(c: char)
      requires Valid()
      modifies this, uart, uart.buf
      ensures Valid() && put == old(put) + [c]
    {
      if buffered {
        uart.PutChar(c);
      } else {
        UartRing.ExpandSnoc(put, c);
        polled := Uart.PutCharPolled(polled, c);
      }
      put := put + [c];
    }

    /** The bytes on the line. */
    ghost function Line(): seq<char>
      reads this, uart
    {
      if buffered then uart.sent else polled
    }

    /** In polled mode, and in buffered mode once the ring has drained, the line has carried exactly the
        characters put, each '\n' followed by '\r'. */
    lemma LineCarriesAll()
      requires Valid() && (buffered ==> uart.head == uart.tail)
      ensures Line() == UartRing.ExpandAll(put)
    {
      if buffered { UartRing.DrainedStream(uart.Abs()); }
    }

    method PutString(s: CString)
      requires Valid()
      modifies this, uart, uart.buf
      ensures Valid() && put == old(put) + s
    {
      hide Valid;
      var i := 0;
      while i < |s|
        invariant 0 <= i <= |s| && Valid() && put == old(put) + s[..i]
      {
        assert s[..i + 1] == s[..i] + [s[i]];
        PutChar(s[i]);
        i := i + 1;
      }
      assert s[..i] == s;
    }

    /** `while (count--)`: a negative count runs down through the whole range of ints. */
    method PutRepChar(c: char, count: Int)
      requires Valid()
      modifies this, uart, uart.buf
      ensures Valid() && put == old(put) + Repeat(c, Wrap(count))
    {
      hide Valid;
      var k: Int, done: nat := count, 0;
      while k != 0
        invariant Valid() && done + Wrap(k) == Wrap(count) && put == old(put) + Repeat(c, done)
        decreases Wrap(k)
      {
        CountDown(k);
        k := Signed(Wrap(k - 1));
        PutChar(c);
        done := done + 1;
      }
    }

    /** The characters of the buffer from `index` downwards. */
    method PutStringReverse(s: array<char>, index: nat)
      requires Valid() && index <= s.Length && s != uart.buf
      modifies this, uart, uart.buf
      ensures Valid() && put == old(put) + Reverse(s[..index])
    {
      hide Valid, Reverse;
      var i := index;
      while i > 0
        invariant 0 <= i <= index && Valid() && s[..] == old(s[..])
        invariant put + Reverse(s[..i]) == old(put) + Reverse(s[..index])
      {
        i := i - 1;
        assert s[..i + 1] == s[..i] + [s[i]];
        ReverseSnoc(s[..i], s[i]);
        PutChar(s[i]);
      }
      assert s[..0] == [];
      ReverseNothing();
    }

    /** sysPutNumber. */
    method PutNumber(value: Int, radix: int, width: Int, fill: char)
      requires Valid() && IsRadix(radix)
      modifies this, uart, uart.buf
      ensures Valid() && put == old(put) + Output(value, radix, width, fill)
    {
      hide Valid, Digits, Text, Reverse, Repeat, Magnitude, Wrap;
      BodyFits(value, radix);
      AtMost21Digits(value, radix);
      var buffer := new char[BUFFER];
      var fill' := if fill == '\0' then ' ' else fill;
      var left := width < 0;
      var size := if left then Signed(Wrap(0 - width as int)) else width;
      if size < 0 || size > WIDEST { size := 0; }
      FieldSizes(width, left, size);
      var negative := radix < 0 && value < 0;
      var bi := StoreDigits(buffer, Magnitude(value, radix), Base(radix));
      if negative {
        buffer[bi] := '-';
        assert buffer[..bi + 1] == buffer[..bi] + ['-'];
        bi := bi + 1;
      }
      assert buffer[..bi] == Body(value, radix);
      PutField(buffer, bi, size, fill', left);
    }

    /** The end of sysPutNumber: the buffer from its last character to its first, filled up to `size`. */
    method PutField(buffer: array<char>, bi: nat, size: nat, fill: char, left: bool)
      requires Valid() && bi <= buffer.Length && buffer != uart.buf && size <= WIDEST
      modifies this, uart, uart.buf
      ensures Valid()
      ensures var pad := Repeat(fill, if size <= bi then 0 else size - bi);
              put == old(put) + Justify(Reverse(buffer[..bi]), pad, left)
    {
      hide Valid, Reverse, Wrap;
      if size <= bi {
        PutStringReverse(buffer, bi);
      } else {
        var missing := size - bi;
        WrapSmall(missing);
        if !left { PutRepChar(fill, missing); }
        PutStringReverse(buffer, bi);
        if left { PutRepChar(fill, missing); }
      }
    }

    /** Conversion 'c'. */
    method PutCharItem(word: Int, width: Int, left: bool, fill: char)
      requires Valid()
      modifies this, uart, uart.buf
      ensures Valid() && put == old(put) + Justify([(word % 0x80) as char], Repeat(fill, CharPad(width)), left)
    {
      hide Valid, Repeat, Wrap;
      NoRepeat(fill);
      var c := (word % 0x80) as char;
      if left { PutChar(c); }
      if width > 0 {
        WrapSmall(width - 1);
        PutRepChar(fill, width - 1);
      }
      if !left { PutChar(c); }
    }

    /** Conversion 's'. */
    method PutStringItem(text: CString, width: Int, left: bool, fill: char)
      requires Valid()
      modifies this, uart, uart.buf
      ensures Valid() && put == old(put) + Justify(text, Repeat(fill, StringPad(width, |text|)), left)
    {
      hide Valid, Repeat, Wrap, Signed;
      NoRepeat(fill);
      if left { PutString(text); }
      if Wrap(width) > |text| {
        UnsignedDifference(width, |text|);
        PutRepChar(fill, Signed(Wrap(width - |text|)));
      }
      if !left { PutString(text); }
    }

    /** FormatItem: `pos` is the place behind the '%', the result the place behind the item. */
    method FormatItem(fmt: CString, pos: nat, a: Arg) returns (f: nat)
      requires Valid() && pos <= |fmt| && Flags(fmt[pos..]) < |fmt| - pos
      modifies this, uart, uart.buf
      ensures f == pos + Flags(fmt[pos..]) + 1
      ensures Valid() && put == old(put) + Item(fmt[pos..f - 1], fmt[f - 1], a)
    {
      hide Valid, Width, Flags, IsFlag, AddDigit, Signed, Wrap, Output, Justify, ItemFill;
      f := pos;
      var fieldwidth: Int, leftjust, radix := 0, false, 0;
      var fill := if fmt[pos] == '0' then '0' else ' ';
      NoFlags();
      assert fmt[pos..f] == [];
      while f < |fmt|
        invariant pos <= f <= pos + Flags(fmt[pos..]) && radix == 0
        invariant fieldwidth == Width(fmt[pos..f]) && leftjust == ('-' in fmt[pos..f])
        invariant Valid() && put == old(put)
      {
        var c := fmt[f];
        FlagAt(fmt, pos, f);
        FillOf(fmt, pos, f);
        f := f + 1;
        if '0' <= c <= '9' {
          fieldwidth := AddDigit(fieldwidth, c);
        } else if c == '%' {
          PutChar('%');
          return;
        } else if c == '-' {
          leftjust := true;
        } else if c == 'c' {
          PutCharItem(a.word, fieldwidth, leftjust, fill);
          return;
        } else if c == 's' {
          PutStringItem(a.text, fieldwidth, leftjust, fill);
          return;
        } else if c == 'd' || c == 'i' {
          radix := -10;
        } else if c == 'u' {
          radix := 10;
        } else if c == 'x' || c == 'X' {
          radix := 16;
        } else if c == 'o' {
          radix := 8;
        } else {
          radix := 3;
        }
        if radix != 0 { break; }
      }
      if leftjust {
        fieldwidth := Signed(Wrap(0 - fieldwidth as int));
      }
      PutNumber(a.word, radix, fieldwidth, fill);
    }

    /** One turn of the printf loop: an ordinary character, or an item and its argument. */
    method PutPiece(fmt: CString, i: nat, args: seq<Arg>, used: nat) returns (i': nat, used': nat)
      requires Valid() && i < |fmt| && Piece(fmt[i..]) <= |fmt| - i
      requires used <= |args| && Takes(fmt[i..]) <= |args| - used
      modifies this, uart, uart.buf
      ensures i' == i + Piece(fmt[i..]) && used' == used + Takes(fmt[i..])
      ensures Valid() && put == old(put) + First(fmt[i..], args[used..])
    {
      hide Valid, Item, Flags;
      i', used' := i, used;
      if fmt[i] == '%' {
        var a := args[used];
        used' := used + 1;
        assert fmt[i..][1..] == fmt[i + 1..];
        i' := FormatItem(fmt, i + 1, a);
        assert fmt[i..][1..i' - i - 1] == fmt[i + 1..i' - 1];
      } else {
        PutChar(fmt[i]);
        i' := i + 1;
      }
    }

    /** The loop of sysPrintf and sysprintf. `used` counts the arguments taken. */
    method Printf(fmt: CString, args: seq<Arg>) returns (used: nat)
      requires Valid() && WellFormed(fmt) && Items(fmt) <= |args|
      modifies this, uart, uart.buf
      ensures Valid() && used == Items(fmt) && put == old(put) + Render(fmt, args)
    {
      hide Valid, Piece, Takes, First;
      var i := 0;
      used := 0;
      assert fmt[0..] == fmt && args[0..] == args;
      while i < |fmt|
        invariant i <= |fmt| && used <= |args| && WellFormed(fmt[i..]) && used + Items(fmt[i..]) == Items(fmt)
        invariant Valid() && put + Render(fmt[i..], args[used..]) == old(put) + Render(fmt, args)
      {
        Unfold(fmt, i, args, used);
        i, used := PutPiece(fmt, i, args, used);
      }
    }
  }

  /** The digit loop of sysPutNumber. A comma is stored after digits 3, 6, 9 and 12 of a decimal number,
      when the index is 3, 7, 11 or 15 and digits remain. */
  method StoreDigits(buffer: array<char>, value: Word, radix: nat) returns (bi: nat)
    requires buffer.Length == BUFFER && (radix == 10 || radix == 16 || radix == 8 || radix == 3)
    requires |Digits(value, radix)| <= (if radix == 10 then 10 else 21)
    modifies buffer
    ensures bi < BUFFER && buffer[..bi] == Text(Digits(value, radix), 0, radix)
  {
    hide Text, Digits, Comma, Small;
    bi := 0;
    assert Small([]) by { NoDigits(); }
    var uvalue: nat, more := value, true;
    ghost var ds: seq<nat> := [];
    NoText(radix);
    while more
      invariant Small(ds) && Digits(value, radix) == ds + if more then Digits(uvalue, radix) else []
      invariant bi <= 22 && buffer[..bi] == Text(ds, 0, radix) + if more then Comma(|ds|, radix) else []
      decreases more, uvalue
    {
      TakeDigit(value, ds, uvalue, radix);
      var digit: nat;
      digit, uvalue := SplitDigit(uvalue, radix);
      more := uvalue != 0;
      bi := StoreDigit(buffer, bi, digit, more, radix, ds);
      ds := ds + [digit];
    }
    assert ds + [] == ds && Text(ds, 0, radix) + [] == Text(ds, 0, radix);
  }

  lemma NoDigits()
    ensures Small([])
  {
  }

  /** One more digit of the number: what is left is the quotient's digits, or nothing. */
  lemma TakeDigit(value: nat, ds: seq<nat>, u: nat, r: nat)
    requires 2 <= r <= 16 && Small(ds) && Digits(value, r) == ds + Digits(u, r)
    ensures u % r < 16 && Small(ds + [u % r]) && |ds| < |Digits(value, r)|
    ensures Digits(value, r) == ds + [u % r] + if u / r == 0 then [] else Digits(u / r, r)
    ensures u / r == 0 || u / r < u
  {
    hide Digits, Small;
    DigitsStep(u, r);
    SmallSnoc(ds, u % r);
    var rest := if u / r == 0 then [] else Digits(u / r, r);
    assert ds + ([u % r] + rest) == ds + [u % r] + rest;
  }

  lemma SmallSnoc(ds: seq<nat>, d: nat)
    requires Small(ds) && d < 16
    ensures Small(ds + [d])
  {
  }

  /** One digit, and the comma that follows it when digits remain. */
  method StoreDigit(buffer: array<char>, bi: nat, digit: nat, more: bool, radix: nat, ghost ds: seq<nat>)
    returns (bi': nat)
    requires buffer.Length == BUFFER && Small(ds) && digit < 16 && Small(ds + [digit])
    requires |ds| < (if radix == 10 then 10 else 21)
    requires bi <= 22 && buffer[..bi] == Text(ds, 0, radix) + Comma(|ds|, radix)
    modifies buffer
    ensures bi' <= 22
    ensures buffer[..bi'] == Text(ds + [digit], 0, radix) + if more then Comma(|ds| + 1, radix) else []
  {
    hide Text, Comma, DigitChar;
    ghost var text := buffer[..bi];
    TextSnoc(ds, digit, 0, radix);
    TextFits(ds + [digit], radix);
    buffer[bi] := DigitChar(digit);
    bi' := bi + 1;
    assert buffer[..bi'] == text + [DigitChar(digit)];
    if more && radix == 10 && (bi' == 3 || bi' == 7 || bi' == 11 || bi' == 15) {
      buffer[bi'] := ',';
      bi' := bi' + 1;
    }
  }

  /** The two ways of taking off a digit: division, or the low four bits and a shift. */
  method SplitDigit(uvalue: nat, radix: nat) returns (digit: nat, rest: nat)
    requires radix >= 2
    ensures digit == uvalue % radix && rest == uvalue / radix
  {
    if radix != 16 {
      return uvalue % radix, uvalue / radix;
    } else {
      LowDigit(uvalue);
      return And(uvalue, 0xf), uvalue / 16;
    }
  }

  lemma NoText(r: nat)
    ensures Text([], 0, r) == [] && Comma(0, r) == []
  {
  }

  lemma DigitsStep(u: nat, r: nat)
    requires r >= 2
    ensures Digits(u, r) == [u % r] + if u / r == 0 then [] else Digits(u / r, r)
    ensures u % r < r && (u / r == 0 || u / r < u)
  {
    if u < r { QuotRem(u, r, 0, u); } else { DivLess(u, r); }
  }

  /** How long the text of at most 21 digits (10 decimal ones) is, and where it calls for a comma. */
  lemma TextFits(ds: seq<nat>, r: nat)
    requires Small(ds) && |ds| <= if r == 10 then 10 else 21
    ensures |Text(ds, 0, r)| <= 21 && |Comma(|ds|, r)| <= 1
    ensures var n := |Text(ds, 0, r)|;
            Comma(|ds|, r) == if r == 10 && (n == 3 || n == 7 || n == 11 || n == 15) then [','] else []
  {
    hide Text, DigitChar;
    NoText(r);
    if r != 10 {
      TextPlain(ds, 0, r);
    } else if |ds| > 0 {
      TextShape(ds, 0);
    }
  }

  lemma ReverseNothing()
    ensures Reverse([]) == []
  {
  }

  lemma FieldSizes(width: Int, left: bool, size: int)
    requires left == (width < 0)
    requires var w := if left then Signed(Wrap(0 - width as int)) else width;
             size == if w < 0 || w > WIDEST then 0 else w
    ensures size == FieldSize(width)
  {
  }

  lemma LowDigit(x: nat)
    ensures And(x, 0xf) == x % 16
  {
    ShlValues(1);
    ShlValues(x / 16);
    hide And;
    AndLow(x / 16, x % 16, 4);
  }

  lemma CountDown(k: Int)
    requires k != 0
    ensures Wrap(Signed(Wrap(k - 1))) == Wrap(k) - 1
  {
  }

  lemma NoRepeat(c: char)
    ensures Repeat(c, 0) == []
  {
  }

  lemma UnsignedDifference(width: Int, n: Word)
    requires Wrap(width) > n
    ensures Wrap(Signed(Wrap(width - n))) == Wrap(width) - n
  {
  }

  lemma NoFlags()
    ensures Width([]) == 0
  {
  }

  /** What the scan of the flags does at one character. */
  lemma FlagAt(fmt: seq<char>, pos: nat, f: nat)
    requires pos <= f < |fmt| && f <= pos + Flags(fmt[pos..])
    ensures ('0' <= fmt[f] <= '9' || fmt[f] == '-') <==> f < pos + Flags(fmt[pos..])
    ensures Width(fmt[pos..f + 1]) ==
         if '0' <= fmt[f] <= '9' then AddDigit(Width(fmt[pos..f]), fmt[f]) else Width(fmt[pos..f])
    ensures '-' in fmt[pos..f + 1] <==> '-' in fmt[pos..f] || fmt[f] == '-'
  {
    hide Flags, AddDigit;
    assert fmt[pos..][f - pos] == fmt[f];
    assert fmt[pos..f + 1] == fmt[pos..f] + [fmt[f]];
  }

  lemma FillOf(fmt: seq<char>, pos: nat, f: nat)
    requires pos <= f < |fmt| && f <= pos + Flags(fmt[pos..])
    ensures f == pos + Flags(fmt[pos..]) ==> ItemFill(fmt[pos..f]) == if fmt[pos] == '0' then '0' else ' '
  {
  }

  /** The format from position i on: its first piece, and the rest. */
  lemma Unfold(fmt: seq<char>, i: nat, args: seq<Arg>, used: nat)
    requires i < |fmt| && used <= |args| && WellFormed(fmt[i..]) && Items(fmt[i..]) <= |args| - used
    ensures var n, t := Piece(fmt[i..]), Takes(fmt[i..]);
            && i + n <= |fmt| && used + t <= |args| && WellFormed(fmt[i + n..])
            && Items(fmt[i..]) == t + Items(fmt[i + n..])
            && Render(fmt[i..], args[used..]) == First(fmt[i..], args[used..]) + Render(fmt[i + n..], args[used + t..])
  {
    hide Piece, Takes, First;
    var f := fmt[i..];
    assert f[Piece(f)..] == fmt[i + Piece(f)..];
    assert args[used..][Takes(f)..] == args[used + Takes(f)..];
  }

  /** Buffered and polled printing of the same calls put the same bytes on the line: at most 32 service
      routine runs after the last call the buffered line has caught up. */
  lemma BothModesAgree(a: Printer, b: Printer)
    requires a.Valid() && b.Valid() && a.put == b.put && a.buffered && !b.buffered
    ensures UartRing.Served(a.uart.Abs(), 32).sent == b.Line() == UartRing.ExpandAll(a.put)
  {
    b.LineCarriesAll();
    UartRing.CapacityIs255(a.uart.Abs());
    UartRing.ServedDrains(a.uart.Abs(), 32);
  }
}

/** What runs of page programs, block erases and reads do to the flash contents. */
module FlashMap {
  import opened Bits
  import opened Division
  import opened FlashChip

  /** Byte m of a word in the caller's little-endian buffer. */
  function LittleByte(w: Word, m: nat): Byte
    requires m < 4
  {
    if m == 0 then Byte0(w) else if m == 1 then Byte1(w) else if m == 2 then Byte2(w) else Byte3(w)
  }

  /** The bytes of a word buffer in memory order. */
  function BufBytes(buf: seq<Word>): (s: seq<Byte>)
    ensures |s| == 4 * |buf|
  {
    seq(4 * |buf|, j requires 0 <= j < 4 * |buf| => LittleByte(buf[j / 4], j % 4))
  }

  lemma BufAppend(buf: seq<Word>, w: Word)
    ensures BufBytes(buf + [w]) == BufBytes(buf) + [Byte0(w), Byte1(w), Byte2(w), Byte3(w)]
  {
    hide LittleByte;
    LittleBytes(w);
    var a, b := BufBytes(buf + [w]), BufBytes(buf) + [Byte0(w), Byte1(w), Byte2(w), Byte3(w)];
    forall j | 0 <= j < |a| ensures a[j] == b[j] {
      if j < 4 * |buf| { assert j / 4 < |buf|; } else { assert j / 4 == |buf|; }
    }
  }

  lemma LittleBytes(w: Word)
    ensures LittleByte(w, 0) == Byte0(w) && LittleByte(w, 1) == Byte1(w)
    ensures LittleByte(w, 2) == Byte2(w) && LittleByte(w, 3) == Byte3(w)
  {
  }

  /** The least significant byte of a word comes first. */
  lemma BufInNumbers(buf: seq<Word>, k: nat)
    requires k < 4 * |buf|
    ensures BufBytes(buf)[k] == buf[k / 4] / [1, 0x100, 0x1_0000, 0x100_0000][k % 4] % 0x100
  {
  }

  lemma BufSplit(buf: seq<Word>, k: nat)
    requires k <= |buf|
    ensures BufBytes(buf) == BufBytes(buf[..k]) + BufBytes(buf[k..])
  {
    hide LittleByte;
    var a, b := BufBytes(buf), BufBytes(buf[..k]) + BufBytes(buf[k..]);
    forall j | 0 <= j < |a| ensures a[j] == b[j] {
      if j >= 4 * k { assert (j - 4 * k) / 4 == j / 4 - k && (j - 4 * k) % 4 == j % 4; }
    }
  }

  /** Programming a range clears, cell by cell, the bits that are zero in the data. */
  function Programmed(mem: seq<Byte>, addr: nat, data: seq<Byte>): (m: seq<Byte>)
    ensures |m| == |mem|
    ensures forall a | 0 <= a < |mem| ::
              m[a] == if addr <= a < addr + |data| then Cleared(mem[a], data[a - addr]) else mem[a]
  {
    seq(|mem|, a requires 0 <= a < |mem| =>
      if addr <= a < addr + |data| then Cleared(mem[a], data[a - addr]) else mem[a])
  }

  /** A cell inside the range keeps the bits that the byte of the buffer leaves set. */
  lemma ProgrammedInNumbers(mem: seq<Byte>, addr: nat, buf: seq<Word>, k: nat)
    requires k < 4 * |buf| && addr + k < |mem|
    ensures Programmed(mem, addr, BufBytes(buf))[addr + k]
         == And(mem[addr + k], buf[k / 4] / [1, 0x100, 0x1_0000, 0x100_0000][k % 4] % 0x100)
  {
    hide BufBytes, And;
    BufInNumbers(buf, k);
  }

  /** A page program that does not run past its page is a plain range. */
  lemma PageIsRange(mem: seq<Byte>, addr: nat, data: seq<Byte>)
    requires addr % PAGE + |data| <= PAGE
    ensures PageProgram(mem, addr, data) == Programmed(mem, addr, data)
  {
    hide Cleared;
    forall a | 0 <= a < |mem| ensures PageProgram(mem, addr, data)[a] == Programmed(mem, addr, data)[a] {
      InPage(a, addr, |data|);
    }
  }

  lemma InPage(a: nat, addr: nat, n: nat)
    requires addr % PAGE + n <= PAGE
    ensures a / PAGE == addr / PAGE && Around(a, addr) < n <==> addr <= a < addr + n
    ensures addr <= a < addr + n ==> Around(a, addr) == a - addr && LastAt(a - addr, n) == a - addr
  {
    assert a == a / PAGE * PAGE + a % PAGE && addr == addr / PAGE * PAGE + addr % PAGE;
  }

  lemma ProgramTwice(mem: seq<Byte>, addr: nat, d1: seq<Byte>, d2: seq<Byte>)
    ensures Programmed(Programmed(mem, addr, d1), addr + |d1|, d2) == Programmed(mem, addr, d1 + d2)
  {
    hide Cleared;
  }

  /** A run of whole blocks set to 0xFF. */
  function Erased(mem: seq<Byte>, addr: nat, n: nat): (m: seq<Byte>)
    ensures |m| == |mem|
    ensures forall a | 0 <= a < |mem| :: m[a] == if addr <= a < addr + n * BLOCK then 0xFF else mem[a]
  {
    seq(|mem|, a requires 0 <= a < |mem| => if addr <= a < addr + n * BLOCK then 0xFF else mem[a])
  }

  lemma EraseNext(mem: seq<Byte>, addr: nat, n: nat)
    requires addr % BLOCK == 0
    ensures EraseBlock(Erased(mem, addr, n), addr + n * BLOCK) == Erased(mem, addr, n + 1)
  {
    var first := addr / BLOCK;
    assert addr == first * BLOCK;
  }

  lemma EraseNone(mem: seq<Byte>, addr: nat)
    ensures Erased(mem, addr, 0) == mem
  {
  }

  // ---- Page sizes of spiFlashWrite ----

  /** Number of pages for `len` bytes, and the size it gives page i. */
  function Pages(len: nat): nat { len / 256 + if len % 256 != 0 then 1 else 0 }
  function PageLen(len: nat, i: nat): nat
    requires 256 * i <= len
  {
    if 256 * (i + 1) <= len then 256 else len - 256 * i
  }

  /** What is left of the length when page i begins; the last page does not subtract its size. */
  function Left(len: nat, i: nat): nat {
    if 256 * i <= len then len - 256 * i else len - 256 * (len / 256)
  }

  lemma LeftAll(len: nat)
    ensures Left(len, 0) == len && (len > 0 ==> Pages(len) > 0)
  {
  }

  lemma LeftStep(len: nat, i: nat)
    requires i < Pages(len)
    ensures 256 * i <= len && PageLen(len, i) == if Left(len, i) >= 256 then 256 else Left(len, i)
    ensures Left(len, i + 1) == if Left(len, i) >= 256 then Left(len, i) - 256 else Left(len, i)
  {
  }

  /** Whole words: the tail of the last page is rounded up. */
  function Words(n: nat): nat { (n + 3) / 4 }

  /** The condition on a call under which no page program runs past its page. */
  predicate Fits(addr: nat, len: nat) {
    addr % PAGE + (if len >= 256 then 256 else 4 * Words(len)) <= PAGE
  }

  lemma FitsExactly(addr: nat, len: nat)
    requires len > 0
    ensures Fits(addr, len) <==>
            forall i | 0 <= i < Pages(len) ::
              256 * i <= len && (addr + 256 * i) % PAGE + 4 * Words(PageLen(len, i)) <= PAGE
  {
    if Fits(addr, len) {
      forall i | 0 <= i < Pages(len)
        ensures 256 * i <= len && (addr + 256 * i) % PAGE + 4 * Words(PageLen(len, i)) <= PAGE
      {
        assert (addr + 256 * i) % PAGE == addr % PAGE;
      }
    } else {
      assert 256 * 0 <= len && PageLen(len, 0) == if len >= 256 then 256 else len;
      assert (addr + 256 * 0) % PAGE == addr % PAGE;
      assert 0 < Pages(len);
    }
  }

  /** The page sizes add up to the length. */
  function SumPages(len: nat, n: nat): nat
    requires n <= Pages(len)
  {
    if n == 0 then 0 else SumPages(len, n - 1) + PageLen(len, n - 1)
  }

  lemma {:induction false} PagesSum(len: nat, n: nat)
    requires n <= Pages(len)
    ensures SumPages(len, n) == if 256 * n <= len then 256 * n else len
  {
    if n > 0 { PagesSum(len, n - 1); }
  }

  // ---- Runs of page programs ----

  /** The bytes that page i of a write of `len` bytes sends: whole words. */
  function PageData(len: nat, buf: seq<Word>, i: nat): (d: seq<Byte>)
    requires i < Pages(len) && Words(len) <= |buf|
    ensures 0 < |d| <= PAGE
  {
    BufBytes(buf[64 * i..64 * i + Words(PageLen(len, i))])
  }

  /** Contents after the first n page programs of a write, whether or not they wrap in their pages. */
  function Written(mem: seq<Byte>, addr: nat, len: nat, buf: seq<Word>, n: nat): (m: seq<Byte>)
    requires n <= Pages(len) && Words(len) <= |buf|
    ensures |m| == |mem|
  {
    if n == 0 then mem
    else PageProgram(Written(mem, addr, len, buf, n - 1), addr + 256 * (n - 1), PageData(len, buf, n - 1))
  }

  /** Page i of a write lies inside the flash and inside the buffer; in a call that fits, in its page. */
  lemma PageInRange(addr: nat, len: nat, i: nat)
    requires addr + 4 * Words(len) <= SIZE && i < Pages(len)
    ensures 256 * i <= len && 0 < PageLen(len, i) && addr + i * 256 < SIZE
    ensures var page := PageLen(len, i);
            && 64 * i + Words(page) <= Words(len)
            && 64 * i + Words(page) == (if 256 * (i + 1) <= len then 64 * (i + 1) else Words(len))
            && (Fits(addr, len) ==> (addr + i * 256) % PAGE + 4 * Words(page) <= PAGE)
  {
    PageWords(len, i);
    SamePlace(addr, i);
  }

  lemma SamePlace(addr: nat, i: nat)
    ensures (addr + i * 256) % PAGE == addr % PAGE
  {
  }

  lemma PageWords(len: nat, i: nat)
    requires i < Pages(len)
    ensures 256 * i <= len && 0 < PageLen(len, i) <= 256
    ensures 64 * i + Words(PageLen(len, i)) == if 256 * (i + 1) <= len then 64 * (i + 1) else Words(len)
    ensures 0 < Words(PageLen(len, i)) && 64 * i + Words(PageLen(len, i)) <= Words(len)
    ensures len < 256 ==> PageLen(len, i) == len
  {
  }

  lemma NextPage(mem: seq<Byte>, addr: nat, buf: seq<Word>, first: nat, n: nat)
    requires first + n <= |buf|
    ensures Programmed(Programmed(mem, addr, BufBytes(buf[..first])), addr + 4 * first, BufBytes(buf[first..first + n]))
         == Programmed(mem, addr, BufBytes(buf[..first + n]))
  {
    hide Programmed, BufBytes;
    ProgramTwice(mem, addr, BufBytes(buf[..first]), BufBytes(buf[first..first + n]));
    BufSplit(buf[..first + n], first);
    assert buf[..first + n][..first] == buf[..first] && buf[..first + n][first..] == buf[first..first + n];
  }

  lemma WrittenNone(mem: seq<Byte>, addr: nat, len: nat, buf: seq<Word>)
    requires Words(len) <= |buf|
    ensures Written(mem, addr, len, buf, 0) == mem
  {
  }

  lemma WrittenNext(mem: seq<Byte>, addr: nat, len: nat, buf: seq<Word>, i: nat)
    requires i < Pages(len) && Words(len) <= |buf| && addr + 4 * Words(len) <= SIZE
    ensures var page := PageLen(len, i);
            && 64 * i + Words(page) <= |buf|
            && Written(mem, addr, len, buf, i + 1)
               == PageProgram(Written(mem, addr, len, buf, i), addr + i * 256,
                              BufBytes(buf[64 * i..64 * i + Words(page)]))
  {
    hide PageProgram, BufBytes;
    PageInRange(addr, len, i);
  }

  lemma ProgramNone(mem: seq<Byte>, addr: nat, buf: seq<Word>)
    ensures Programmed(mem, addr, BufBytes(buf[..0])) == mem
  {
    assert BufBytes(buf[..0]) == [];
  }

  /** When the pages fit, the page programs together are one plain range. */
  lemma {:induction false} WrittenIsRange(mem: seq<Byte>, addr: nat, len: nat, buf: seq<Word>, n: nat)
    requires Fits(addr, len) && addr + 4 * Words(len) <= SIZE && n <= Pages(len) && Words(len) <= |buf|
    ensures Written(mem, addr, len, buf, n)
         == Programmed(mem, addr, BufBytes(buf[..if 256 * n <= len then 64 * n else Words(len)]))
  {
    hide Programmed, BufBytes, PageProgram;
    if n == 0 {
      ProgramNone(mem, addr, buf);
    } else {
      var i := n - 1;
      WrittenIsRange(mem, addr, len, buf, i);
      PageInRange(addr, len, i);
      PageIsRange(Written(mem, addr, len, buf, i), addr + 256 * i, PageData(len, buf, i));
      NextPage(mem, addr, buf, 64 * i, Words(PageLen(len, i)));
    }
  }

  /** Bytes outside the range of a call, rounded up to whole words, keep their values. */
  ghost predicate OutsideKept(mem: seq<Byte>, addr: nat, len: nat, buf: seq<Word>)
    requires Words(len) <= |buf|
  {
    var m := Written(mem, addr, len, buf, Pages(len));
    forall a | 0 <= a < |mem| && !(addr <= a < addr + 4 * Words(len)) :: m[a] == mem[a]
  }

  /** Programming never sets a bit: a cleared cell stays cleared. */
  lemma {:induction false} StaysZero(mem: seq<Byte>, addr: nat, len: nat, buf: seq<Word>, n: nat, a: nat)
    requires 1 <= n <= Pages(len) && Words(len) <= |buf| && a < |mem|
    requires Written(mem, addr, len, buf, 1)[a] == 0
    ensures Written(mem, addr, len, buf, n)[a] == 0
  {
    hide PageData;
    if n > 1 {
      StaysZero(mem, addr, len, buf, n - 1, a);
      ProgramZero(Written(mem, addr, len, buf, n - 1), addr + 256 * (n - 1), PageData(len, buf, n - 1), a);
    }
  }

  lemma ProgramZero(mem: seq<Byte>, addr: nat, data: seq<Byte>, a: nat)
    requires a < |mem| && mem[a] == 0
    ensures PageProgram(mem, addr, data)[a] == 0
  {
  }

  function Zeros(n: nat): (z: seq<Word>)
    ensures |z| == n
  {
    seq(n, _ => 0)
  }

  /** Exactly the calls that fit leave all other bytes alone, whatever is written: a call that does not
      fit wraps around in its first page and clears bytes in front of `addr`. */
  lemma StaysInRangeExactly(addr: nat, len: nat)
    requires len > 0 && addr + 4 * Words(len) <= SIZE
    ensures Fits(addr, len) <==>
            forall mem: seq<Byte>, buf: seq<Word> | |mem| == SIZE && |buf| == Words(len) ::
              OutsideKept(mem, addr, len, buf)
  {
    if Fits(addr, len) {
      forall mem: seq<Byte>, buf: seq<Word> | |mem| == SIZE && |buf| == Words(len)
        ensures OutsideKept(mem, addr, len, buf)
      {
        WrittenIsRange(mem, addr, len, buf, Pages(len));
      }
    } else {
      WrapClears(addr, len);
    }
  }

  lemma WrapClears(addr: nat, len: nat)
    requires len > 0 && addr + 4 * Words(len) <= SIZE && !Fits(addr, len)
    ensures exists mem: seq<Byte>, buf: seq<Word> ::
              |mem| == SIZE && |buf| == Words(len) && !OutsideKept(mem, addr, len, buf)
  {
    var mem: seq<Byte>, buf := seq(SIZE, _ => 0xFF), Zeros(Words(len));
    var a := addr / PAGE * PAGE;
    assert a < addr by { PageBelow(addr, len); }
    hide Fits, Pages, Written;
    FirstCleared(mem, addr, len, a);
    StaysZero(mem, addr, len, buf, Pages(len), a);
    assert mem[a] == 0xFF;
    assert !OutsideKept(mem, addr, len, buf);
  }

  lemma PageBelow(addr: nat, len: nat)
    requires !Fits(addr, len)
    ensures addr / PAGE * PAGE < addr && addr % PAGE > 0
  {
  }

  lemma FirstCleared(mem: seq<Byte>, addr: nat, len: nat, a: nat)
    requires len > 0 && !Fits(addr, len) && a == addr / PAGE * PAGE && a < |mem|
    ensures 1 <= Pages(len) && Written(mem, addr, len, Zeros(Words(len)), 1)[a] == 0
  {
    PageStart(addr, a);
    ZeroPage(len);
    var d := PageData(len, Zeros(Words(len)), 0);
    assert Written(mem, addr, len, Zeros(Words(len)), 1) == PageProgram(mem, addr, d);
    hide Written, PageData;
    ProgramsZero(mem, addr, d, a);
  }

  lemma ProgramsZero(mem: seq<Byte>, addr: nat, d: seq<Byte>, a: nat)
    requires a < |mem| && a / PAGE == addr / PAGE && Around(a, addr) < |d| && forall k | 0 <= k < |d| :: d[k] == 0
    ensures PageProgram(mem, addr, d)[a] == 0
  {
    hide Around, Cleared;
    ZeroMask(mem[a]);
    assert d[LastAt(Around(a, addr), |d|)] == 0;
  }

  lemma PageStart(addr: nat, a: nat)
    requires a == addr / PAGE * PAGE && addr % PAGE > 0
    ensures a / PAGE == addr / PAGE && Around(a, addr) == PAGE - addr % PAGE
  {
  }

  lemma ZeroPage(len: nat)
    requires len > 0
    ensures 1 <= Pages(len)
    ensures var d := PageData(len, Zeros(Words(len)), 0);
            |d| == (if len >= 256 then 256 else 4 * Words(len)) && forall k | 0 <= k < |d| :: d[k] == 0
  {
  }

  lemma ZeroMask(x: Byte)
    ensures Cleared(x, 0) == 0
  {
  }

  // ---- Round trip ----

  predicate Blank(mem: seq<Byte>, addr: nat, n: nat) {
    addr + n <= |mem| && forall a | addr <= a < addr + n :: mem[a] == 0xFF
  }

  lemma ClearedBlank(b: Byte)
    ensures Cleared(0xFF, b) == b
  {
    LowByteOnes(b);
  }

  lemma LowByteOnes(b: nat)
    requires b < 256
    ensures And(0xFF, b) == b
  {
    ShlValues(1);
    AndOnes(b, 8);
    AndCommutes(0xFF, b);
  }

  lemma {:induction false} AndCommutes(x: nat, y: nat)
    ensures And(x, y) == And(y, x)
  {
    if x == 0 || y == 0 {
    } else {
      AndCommutes(x / 2, y / 2);
    }
  }

  /** The condition for the bytes that are asked for, without the padding to whole words, to stay in their page. */
  predicate BytesFit(addr: nat, len: nat) {
    len == 0 || addr % PAGE + (if len >= 256 then 256 else len) <= PAGE
  }

  lemma FitsBytes(addr: nat, len: nat)
    ensures Fits(addr, len) ==> BytesFit(addr, len)
    ensures BytesFit(addr, len) && !Fits(addr, len) ==> len < 256
  {
  }

  /** After a write the range of the bytes asked for holds the bytes of the buffer. */
  ghost predicate Holds(mem: seq<Byte>, addr: nat, len: nat, buf: seq<Word>)
    requires Words(len) <= |buf| && addr + len <= |mem|
  {
    Written(mem, addr, len, buf, Pages(len))[addr..addr + len] == BufBytes(buf)[..len]
  }

  /** Writing a blank range and reading it returns what was written, for all contents and buffers, exactly
      when the bytes asked for stay in their page. */
  lemma RoundTripExactly(addr: nat, len: nat)
    requires addr + 4 * Words(len) <= SIZE
    ensures BytesFit(addr, len) <==>
            forall mem: seq<Byte>, buf: seq<Word> | |mem| == SIZE && |buf| == Words(len) && Blank(mem, addr, len) ::
              Holds(mem, addr, len, buf)
  {
    if BytesFit(addr, len) {
      forall mem: seq<Byte>, buf: seq<Word> | |mem| == SIZE && |buf| == Words(len) && Blank(mem, addr, len)
        ensures Holds(mem, addr, len, buf)
      {
        HoldsIfFits(mem, addr, len, buf);
      }
    } else {
      LostIfNot(addr, len);
    }
  }

  lemma HoldsIfFits(mem: seq<Byte>, addr: nat, len: nat, buf: seq<Word>)
    requires addr + 4 * Words(len) <= SIZE == |mem| && Words(len) <= |buf|
    requires BytesFit(addr, len) && Blank(mem, addr, len)
    ensures Holds(mem, addr, len, buf)
  {
    hide BufBytes, Blank;
    var data := BufBytes(buf[..Words(len)]);
    assert BufBytes(buf)[..len] == data[..len] by { BufSplit(buf, Words(len)); }
    if len > 0 {
      FitsBytes(addr, len);
      if Fits(addr, len) {
        WrittenIsRange(mem, addr, len, buf, Pages(len));
        hide Written;
        assert Pages(len) * 256 <= len ==> 64 * Pages(len) == Words(len);
        hide Pages;
        ProgrammedBlank(mem, addr, data, len);
      } else {
        OnePage(mem, addr, len, buf);
        hide Written, Pages, PageProgram;
        PageBlank(mem, addr, data, len);
      }
    }
  }

  lemma ProgrammedBlank(mem: seq<Byte>, addr: nat, data: seq<Byte>, len: nat)
    requires len <= |data| && Blank(mem, addr, len)
    ensures Programmed(mem, addr, data)[addr..addr + len] == data[..len]
  {
    hide Cleared;
    var m := Programmed(mem, addr, data);
    forall k | 0 <= k < len ensures m[addr + k] == data[k] {
      ClearedBlank(data[k]);
    }
  }

  lemma OnePage(mem: seq<Byte>, addr: nat, len: nat, buf: seq<Word>)
    requires 0 < len < 256 && Words(len) <= |buf|
    ensures Pages(len) == 1 && Written(mem, addr, len, buf, 1) == PageProgram(mem, addr, BufBytes(buf[..Words(len)]))
  {
    hide BufBytes, PageProgram;
    assert Written(mem, addr, len, buf, 0) == mem;
    assert buf[0..Words(len)] == buf[..Words(len)];
  }

  lemma PageBlank(mem: seq<Byte>, addr: nat, data: seq<Byte>, len: nat)
    requires len <= |data| <= PAGE && addr % PAGE + len <= PAGE && Blank(mem, addr, len)
    ensures PageProgram(mem, addr, data)[addr..addr + len] == data[..len]
  {
    hide Cleared;
    var m := PageProgram(mem, addr, data);
    forall k | 0 <= k < len ensures m[addr + k] == data[k] {
      InPage(addr + k, addr, len);
      assert LastAt(k, |data|) == k;
      ClearedBlank(data[k]);
    }
  }

  /** A buffer with zeros in its first page and ones behind. */
  function FirstZeros(n: nat): (buf: seq<Word>)
    ensures |buf| == n
  {
    seq(n, i requires 0 <= i < n => if i < 64 then 0 else 0xFFFF_FFFF)
  }

  /** If the bytes do not fit, the first byte of the next page is lost. */
  lemma LostIfNot(addr: nat, len: nat)
    requires addr + 4 * Words(len) <= SIZE && !BytesFit(addr, len)
    ensures exists mem: seq<Byte>, buf: seq<Word> ::
              |mem| == SIZE && |buf| == Words(len) && Blank(mem, addr, len) && !Holds(mem, addr, len, buf)
  {
    var mem: seq<Byte>, buf := seq(SIZE, _ => 0xFF), FirstZeros(Words(len));
    var a := (addr / PAGE + 1) * PAGE;
    LostPlace(addr, len, a);
    StaysOnes(mem, addr, len, Pages(len), a);
    ZeroByte(len, a - addr);
    var m := Written(mem, addr, len, buf, Pages(len));
    hide Written, BufBytes, FirstZeros, Pages;
    assert m[addr..addr + len][a - addr] == m[a] == 0xFF;
    assert BufBytes(buf)[..len][a - addr] == 0;
    assert |mem| == SIZE && |buf| == Words(len) && Blank(mem, addr, len) && !Holds(mem, addr, len, buf);
  }

  lemma LostPlace(addr: nat, len: nat, a: nat)
    requires !BytesFit(addr, len) && a == (addr / PAGE + 1) * PAGE
    ensures addr < a < addr + len && a - addr < 256 && a % PAGE == 0 && a / PAGE == addr / PAGE + 1
  {
    QuotRem(a, PAGE, addr / PAGE + 1, 0);
  }

  lemma ZeroByte(len: nat, k: nat)
    requires k < 256 && k < len
    ensures BufBytes(FirstZeros(Words(len)))[k] == 0
  {
    assert k / 4 < 64 && k / 4 < Words(len);
  }

  /** The first page program does not touch the next page, and the others write ones there. */
  lemma {:induction false} StaysOnes(mem: seq<Byte>, addr: nat, len: nat, n: nat, a: nat)
    requires n <= Pages(len) && a < |mem| && mem[a] == 0xFF && a / PAGE == addr / PAGE + 1
    ensures Written(mem, addr, len, FirstZeros(Words(len)), n)[a] == 0xFF
  {
    hide PageData, FirstZeros;
    if n > 0 {
      StaysOnes(mem, addr, len, n - 1, a);
      var m, d := Written(mem, addr, len, FirstZeros(Words(len)), n - 1), PageData(len, FirstZeros(Words(len)), n - 1);
      if n == 1 { OtherPage(m, addr, d, a); } else {
        OnesPage(len, n - 1);
        ProgramOnes(m, addr + 256 * (n - 1), d, a);
      }
    }
  }

  lemma OtherPage(mem: seq<Byte>, addr: nat, data: seq<Byte>, a: nat)
    requires a < |mem| && a / PAGE != addr / PAGE
    ensures PageProgram(mem, addr, data)[a] == mem[a]
  {
  }

  lemma ProgramOnes(mem: seq<Byte>, addr: nat, data: seq<Byte>, a: nat)
    requires a < |mem| && mem[a] == 0xFF && forall k | 0 <= k < |data| :: data[k] == 0xFF
    ensures PageProgram(mem, addr, data)[a] == 0xFF
  {
    hide Around, Cleared;
    ClearedBlank(0xFF);
    assert forall k | 0 <= k < |data| :: data[k] == 0xFF;
    if a / PAGE == addr / PAGE && Around(a, addr) < |data| {
      assert data[LastAt(Around(a, addr), |data|)] == 0xFF;
    }
  }

  lemma OnesPage(len: nat, i: nat)
    requires 1 <= i < Pages(len)
    ensures forall k | 0 <= k < |PageData(len, FirstZeros(Words(len)), i)| ::
              PageData(len, FirstZeros(Words(len)), i)[k] == 0xFF
  {
    var buf := FirstZeros(Words(len));
    var w := buf[64 * i..64 * i + Words(PageLen(len, i))];
    forall k | 0 <= k < |BufBytes(w)| ensures BufBytes(w)[k] == 0xFF {
      assert w[k / 4] == 0xFFFF_FFFF;
      AllOnes(k % 4);
    }
  }

  lemma AllOnes(m: nat)
    requires m < 4
    ensures LittleByte(0xFFFF_FFFF, m) == 0xFF
  {
  }
}

/** sysGetPLLControlRegister: the nested search, and exactly when its outer loop ends. */
module PllSearch {
  import opened Bits
  import opened Division
  import opened Pll

  /** Target of round k: 4 MHz lower each time, in unsigned arithmetic. */
  function Round(target: Word, k: nat): Word {
    Wrap(target - STEP * k)
  }

  /** Some round has an attainable target, so the search loop ends. */
  ghost predicate Ends(fin: Word, target: Word) {
    exists k: nat :: Attainable(fin, Round(target, k))
  }

  // ---- When the search ends ----

  // 125 * INVERSE == 1 + EXCESS * 2^27
  const INVERSE: nat := 115964117
  const EXCESS: nat := 108

  lemma WrapMultiple(x: Word, n: int)
    ensures Wrap(x + TWO32 * n) == x
  {
  }

  /** 125 is invertible modulo 2^27, so subtracting 4000 = 32 * 125 again and again, with wrap-around,
      reaches every value that agrees with the target modulo 32. */
  lemma RoundReaches(target: Word, x: Word) returns (k: nat)
    requires target % 32 == x % 32
    ensures Round(target, k) == x
  {
    var d := (target - x) / 32;
    assert target == x + 32 * d;
    var u := d * INVERSE;
    k := u % 0x800_0000;
    var c := u / 0x800_0000;
    assert target - STEP * k == x + TWO32 * (125 * c - EXCESS * d);
    WrapMultiple(x, 125 * c - EXCESS * d);
  }

  /** 12 MHz crystal: NR = 8, NO = 4 and FB_DV + 2 = m give 750 * m kHz. */
  lemma Attain12(m: nat)
    requires 34 <= m <= 166
    ensures Hit(12000, 750 * m, 3, 2, m - 2)
  {
    assert Nr(2) == 8 && Nf(m - 2) == 2 * m;
    assert 12000 * (2 * m) == 24000 * m;
  }

  /** 27 MHz crystal: NR = 18, NO = 4 and FB_DV + 2 = m give 750 * m kHz. */
  lemma Attain27(m: nat)
    requires 34 <= m <= 166
    ensures Hit(27000, 750 * m, 3, 7, m - 2)
  {
    assert Nr(7) == 18 && Nf(m - 2) == 2 * m;
    assert 27000 * (2 * m) == 54000 * m;
  }

  /** 27 MHz crystal: NR = 16, NO = 2 and FB_DV + 2 = 2 * q give 3375 * q kHz, odd values included. */
  lemma Attain27Odd(q: nat)
    requires 15 <= q <= 73
    ensures Hit(27000, 3375 * q, 1, 6, 2 * q - 2)
  {
    assert Nr(6) == 16 && Nf(2 * q - 2) == 4 * q;
    assert 27000 * (4 * q) == 108000 * q;
  }

  /** With the 12 MHz crystal every attainable output is an even number of kHz. */
  lemma Even12(target: Word, o: nat, i: nat, f: nat)
    requires Hit(12000, target, o, i, f)
    ensures target % 2 == 0
  {
    hide Passes;
    InDividers12(i, f);
    AcceptedIsExact(12000, target, o, i, f);
    EvenQuotient(i, f + 2, o);
  }

  lemma InDividers12(i: nat, f: nat)
    requires i < 32 && Passes(12000, i, f)
    ensures i <= 4
  {
    assert 12000 / Nr(i) >= 1000;
    DivBounds(12000, Nr(i));
    MulBound(1000, 12000 / Nr(i), Nr(i), Nr(i));
  }

  lemma InputQuotient(i: nat, m: nat)
    requires i <= 4 && m >= 2
    ensures 12000 * Nf(m - 2) / Nr(i)
         == if i == 0 then 6000 * m else if i == 1 then 4000 * m else if i == 2 then 3000 * m
            else if i == 3 then 2400 * m else 2000 * m
  {
    assert Nf(m - 2) == 2 * m;
    if i == 0 { assert Nr(i) == 4; }
    else if i == 1 { assert Nr(i) == 6; }
    else if i == 2 { assert Nr(i) == 8; }
    else if i == 3 { assert Nr(i) == 10; }
    else { assert Nr(i) == 12; }
  }

  lemma HalfEven(x: nat, o: nat)
    requires o < 4
    ensures 8 * x / No(o) % 2 == 0
  {
    hide No;
    NoValues(o);
    assert 8 * x / 1 == 2 * (4 * x) && 8 * x / 2 == 2 * (2 * x) && 8 * x / 4 == 2 * x;
  }

  lemma NoValues(o: nat)
    requires o < 4
    ensures No(o) == if o == 0 then 1 else if o == 3 then 4 else 2
  {
  }

  lemma EvenQuotient(i: nat, m: nat, o: nat)
    requires i <= 4 && o < 4 && m >= 2
    ensures 12000 * Nf(m - 2) / Nr(i) / No(o) % 2 == 0
  {
    InputQuotient(i, m);
    HalfEven(if i == 0 then 750 * m else if i == 1 then 500 * m else if i == 2 then 375 * m
             else if i == 3 then 300 * m else 250 * m, o);
  }

  lemma RoundParity(target: Word, k: nat)
    ensures Round(target, k) % 2 == target % 2
  {
    var x := target - STEP * k;
    var n, w := x / TWO32, Round(target, k);
    assert x == n * TWO32 + w;
    QuotRem(target, 2, 2000 * k + n * 0x8000_0000 + w / 2, w % 2);
  }

  lemma {:induction false} NeverEnds12(target: Word, k: nat)
    requires target % 2 == 1
    ensures !Attainable(12000, Round(target, k))
  {
    RoundParity(target, k);
    hide Round, Hit;
    forall o, i, f ensures !Hit(12000, Round(target, k), o, i, f) {
      if Hit(12000, Round(target, k), o, i, f) {
        Even12(Round(target, k), o, i, f);
      }
    }
  }

  lemma ModShift(x: nat, t: nat, n: int)
    requires x == t + 32 * n
    ensures x % 32 == t % 32
  {
  }

  lemma AnyResidue(t: nat) returns (q: nat)
    ensures 15 <= q <= 46 && 3375 * q % 32 == t % 32
  {
    var c := (15 * t - 15) / 32;
    q := 15 * t - 32 * c;
    ModShift(3375 * q, t, 1582 * t - 3375 * c);
  }

  lemma EvenResidue(h: nat) returns (m: nat)
    ensures 34 <= m <= 49 && 750 * m % 32 == 2 * h % 32
  {
    var c := (7 * h - 34) / 16;
    m := 7 * h - 16 * c;
    ModShift(750 * m, 2 * h, 164 * h - 375 * c);
  }

  /** The search ends for every target with the 27 MHz crystal, and exactly for the even targets with
      the 12 MHz crystal: there an odd target makes sysGetPLLControlRegister loop for ever. */
  lemma EndsExactly(fin: Word, target: Word)
    requires fin == 12000 || fin == 27000
    ensures Ends(fin, target) <==> !(fin == 12000 && target % 2 == 1)
  {
    hide Round, Hit;
    if fin == 27000 {
      var q := AnyResidue(target);
      Attain27Odd(q);
      var k := RoundReaches(target, 3375 * q);
      assert Attainable(fin, Round(target, k));
    } else if target % 2 == 0 {
      var m := EvenResidue(target / 2);
      Attain12(m);
      var k := RoundReaches(target, 750 * m);
      assert Attainable(fin, Round(target, k));
    } else {
      forall k: nat ensures !Attainable(fin, Round(target, k)) {
        NeverEnds12(target, k);
      }
    }
  }

  /** For a target of at least 36.75 MHz that is a multiple of 250 kHz the search ends before the
      target runs below zero, with either crystal. */
  lemma EndsAboveZero(fin: Word, target: Word) returns (k: nat)
    requires fin == 12000 || fin == 27000
    requires target >= 36750 && target % 250 == 0
    ensures STEP * k <= target && Round(target, k) == target - STEP * k && Attainable(fin, Round(target, k))
  {
    var m := LowResidue(target / 250);
    k := (target - 750 * m) / 4000;
    assert target - STEP * k == 750 * m by { Below(target / 250, m); }
    if fin == 12000 { Attain12(m); } else { Attain27(m); }
    WrapSmall(target - STEP * k);
  }

  lemma LowResidue(u: nat) returns (m: nat)
    ensures 34 <= m <= 49 && (u - 3 * m) % 16 == 0
  {
    var c := (11 * u - 34) / 16;
    m := 11 * u - 16 * c;
    assert u - 3 * m == 16 * (3 * c - 2 * u);
  }

  lemma Below(u: nat, m: nat)
    requires (u - 3 * m) % 16 == 0
    ensures 250 * u - 4000 * ((250 * u - 750 * m) / 4000) == 750 * m
  {
    var n := (u - 3 * m) / 16;
    assert 250 * u - 750 * m == 4000 * n;
  }

  // ---- The search itself ----

  /** Order in which the nested loops try the candidates. */
  function Key(o: nat, i: nat, f: nat): nat {
    (o * 32 + i) * 512 + f
  }

  /** No candidate tried before position n produces the target. */
  ghost predicate NoneBelow(fin: Word, target: Word, n: nat) {
    forall o, i, f :: Hit(fin, target, o, i, f) ==> Key(o, i, f) >= n
  }

  /** The candidate that the loops meet first, in the order OUT_DV, IN_DV, FB_DV. */
  ghost predicate First(fin: Word, target: Word, o: nat, i: nat, f: nat) {
    Hit(fin, target, o, i, f) && NoneBelow(fin, target, Key(o, i, f))
  }

  lemma NoneHere(fin: Word, target: Word, o: nat, i: nat, f: nat)
    requires o < 4 && i < 32 && f < 512
    requires NoneBelow(fin, target, Key(o, i, f)) && !Hit(fin, target, o, i, f)
    ensures NoneBelow(fin, target, Key(o, i, f) + 1)
  {
    forall o', i', f' | Hit(fin, target, o', i', f')
      ensures Key(o', i', f') >= Key(o, i, f) + 1
    {
      HitRange(fin, target, o', i', f');
      KeyInjective(o, i, f, o', i', f');
    }
  }

  lemma HitRange(fin: Word, target: Word, o: nat, i: nat, f: nat)
    requires Hit(fin, target, o, i, f)
    ensures o < 4 && i < 32 && f < 512
  {
  }

  lemma KeyInjective(o: nat, i: nat, f: nat, o': nat, i': nat, f': nat)
    requires i < 32 && f < 512 && i' < 32 && f' < 512
    ensures Key(o, i, f) == Key(o', i', f') ==> o == o' && i == i' && f == f'
  {
  }

  lemma AllTried(fin: Word, target: Word)
    requires NoneBelow(fin, target, 0x1_0000)
    ensures !Attainable(fin, target)
  {
    forall o, i, f ensures Hit(fin, target, o, i, f) ==> Key(o, i, f) < 0x1_0000 {
      KeyBound(fin, target, o, i, f);
    }
  }

  lemma KeyBound(fin: Word, target: Word, o: nat, i: nat, f: nat)
    ensures Hit(fin, target, o, i, f) ==> Key(o, i, f) < 0x1_0000
  {
    hide Passes, Output;
  }

  /** OUT_DV = 2 divides by 2 like OUT_DV = 1, which is tried earlier. */
  lemma FirstIsNotTwo(fin: Word, target: Word, o: nat, i: nat, f: nat)
    requires First(fin, target, o, i, f)
    ensures o != 2
  {
    KeyGrows(i, f);
    SameDivider(fin, target, i, f);
  }

  lemma KeyGrows(i: nat, f: nat)
    ensures Key(1, i, f) < Key(2, i, f)
  {
  }

  lemma SameDivider(fin: Word, target: Word, i: nat, f: nat)
    ensures Hit(fin, target, 2, i, f) ==> Hit(fin, target, 1, i, f)
  {
  }

  /** The all-zero register is never an accepted candidate, so 0 can mean "none". */
  lemma NotAllZero(fin: Word, target: Word)
    ensures !Hit(fin, target, 0, 0, 0)
  {
    if Hit(fin, target, 0, 0, 0) {
      AcceptedIsExact(fin, target, 0, 0, 0);
    }
  }

  lemma FirstIsNonzero(fin: Word, target: Word, o: nat, i: nat, f: nat)
    requires Hit(fin, target, o, i, f)
    ensures 0 < Pack(o, i, f) < 0x1_0000
  {
    hide Pack;
    HitRange(fin, target, o, i, f);
    NotAllZero(fin, target);
    PackValue(o, i, f);
  }

  /** The first candidate, read from its register: its own OUT_DV, IN_DV and FB_DV produce the target, and no
      candidate with a smaller OUT_DV, or the same and a smaller IN_DV, or the same two and a smaller FB_DV. */
  lemma FirstInNumbers(fin: Word, target: Word, reg: Word, o: nat, i: nat, f: nat)
    requires First(fin, target, o, i, f) && reg == Pack(o, i, f)
    ensures 0 < reg < 0x1_0000 && Hit(fin, target, reg / 0x4000, reg / 0x200 % 32, reg % 0x200)
    ensures forall o', i', f' :: Hit(fin, target, o', i', f') ==>
              || reg / 0x4000 < o'
              || (reg / 0x4000 == o'
                  && (reg / 0x200 % 32 < i' || (reg / 0x200 % 32 == i' && reg % 0x200 <= f')))
  {
    hide Pack, Hit;
    HitRange(fin, target, o, i, f);
    FirstIsNonzero(fin, target, o, i, f);
    PackValue(o, i, f);
    FieldsOfPacked(reg, o, i, f);
    assert reg / 0x4000 == o by { QuotRem(reg, 0x4000, o, i * 0x200 + f); }
    forall o', i', f' | Hit(fin, target, o', i', f')
      ensures o < o' || (o == o' && (i < i' || (i == i' && f <= f')))
    {
      HitRange(fin, target, o', i', f');
      KeyOrder(o, i, f, o', i', f');
    }
  }

  lemma KeyOrder(o: nat, i: nat, f: nat, o': nat, i': nat, f': nat)
    requires i < 32 && f < 512 && i' < 32 && f' < 512
    ensures Key(o, i, f) <= Key(o', i', f') <==> o < o' || (o == o' && (i < i' || (i == i' && f <= f')))
  {
  }

  /** One round: the three nested loops for a fixed target; 0 if nothing matches. */
  method ScanRound(fin: Word, target: Word) returns (reg: Word)
    ensures reg == 0 ==> !Attainable(fin, target)
    ensures reg != 0 ==> exists o, i, f :: First(fin, target, o, i, f) && reg == Pack(o, i, f)
    ensures reg != 0 ==> reg < 0x1_0000 && Hit(fin, target, reg / 0x4000, reg / 0x200 % 32, reg % 0x200)
    ensures reg != 0 ==> forall o', i', f' :: Hit(fin, target, o', i', f') ==>
              || reg / 0x4000 < o'
              || (reg / 0x4000 == o'
                  && (reg / 0x200 % 32 < i' || (reg / 0x200 % 32 == i' && reg % 0x200 <= f')))
  {
    hide Hit, Pack, NoneBelow;
    assert NoneBelow(fin, target, 0) by { NoneBelowZero(fin, target); }
    var o := 0;
    while o < 4
      invariant 0 <= o <= 4 && NoneBelow(fin, target, Key(o, 0, 0))
    {
      var i := 0;
      while i < 32
        invariant o < 4 && 0 <= i <= 32 && NoneBelow(fin, target, Key(o, i, 0))
      {
        var f := 0;
        while f < 512
          invariant o < 4 && i < 32 && 0 <= f <= 512 && NoneBelow(fin, target, Key(o, i, f))
        {
          var matches := Candidate(fin, target, o, i, f);
          if matches {
            FirstIsNonzero(fin, target, o, i, f);
            assert First(fin, target, o, i, f);
            FirstInNumbers(fin, target, Pack(o, i, f), o, i, f);
            return Pack(o, i, f);
          }
          NoneHere(fin, target, o, i, f);
          f := f + 1;
        }
        i := i + 1;
      }
      o := o + 1;
    }
    AllTried(fin, target);
    return 0;
  }

  lemma NoneBelowZero(fin: Word, target: Word)
    ensures NoneBelow(fin, target, 0)
  {
  }

  /** The innermost body: the four filters in order, then the comparison with the target. */
  method Candidate(fin: Word, target: Word, o: nat, i: nat, f: nat) returns (matches: bool)
    requires o < 4 && i < 32 && f < 512
    ensures matches <==> Hit(fin, target, o, i, f)
  {
    hide Wrap;
    var nr := 2 * (i + 2);
    var nf := 2 * (f + 2);
    var no := No(o);
    if fin / nr < 1000 { return false; }
    if fin / nr > 15000 { return false; }
    if Wrap(fin / nr * nf) < 100000 { return false; }
    if Wrap(fin / nr * nf) > 500000 { return false; }
    var x := Wrap(fin * nf);
    return target == x / nr / no;
  }

  /** sysGetPLLControlRegister with the constraint check off, for any crystal and target for which the
      search ends. The register is the first candidate for the first attainable target among target,
      target - 4000, target - 8000, ... */
  method GetPLLControlRegister(fin: Word, target: Word) returns (reg: Word, ghost k: nat)
    requires Ends(fin, target)
    ensures Found(fin, target, reg, k)
    ensures Hit(fin, Round(target, k), reg / 0x4000, reg / 0x200 % 32, reg % 0x200)
    ensures forall o', i', f' :: Hit(fin, Round(target, k), o', i', f') ==>
              || reg / 0x4000 < o'
              || (reg / 0x4000 == o'
                  && (reg / 0x200 % 32 < i' || (reg / 0x200 % 32 == i' && reg % 0x200 <= f')))
    ensures 0 < reg < 0x1_0000 && exists n: nat ::
        Attainable(fin, Round(target, n)) && OutputOf(reg, fin) == Round(target, n)
  {
    hide Hit, Round, Pack, OutputOf;
    ghost var last: nat :| Attainable(fin, Round(target, last));
    var t := target;
    k := 0;
    assert t == Round(target, 0) by { RoundFirst(target); }
    while true
      invariant t == Round(target, k) && k <= last
      invariant forall j: nat | j < k :: !Attainable(fin, Round(target, j))
      decreases last - k
    {
      reg := ScanRound(fin, t);
      if reg != 0 {
        assert Found(fin, target, reg, k);
        FoundRegister(fin, target, reg, k);
        return;
      }
      RoundNext(target, k);
      t := Wrap((t as int) - 4000);
      k := k + 1;
    }
  }

  lemma RoundFirst(target: Word)
    ensures Round(target, 0) == target
  {
  }

  lemma RoundNext(target: Word, k: nat)
    ensures Round(target, k + 1) == Wrap(Round(target, k) - 4000)
  {
    WrapAdd(target - STEP * k, -4000);
  }

  /** What the caller gets: a nonzero register that decodes to the first attainable frequency of the
      sequence, with OUT_DV different from 2. */
  lemma RegisterDecodes(fin: Word, target: Word, reg: Word, o: nat, i: nat, f: nat)
    requires First(fin, target, o, i, f) && reg == Pack(o, i, f)
    ensures 0 < reg < 0x1_0000 && OutputOf(reg, fin) == target && reg / 0x4000 % 4 != 2
  {
    hide Pack, OutputOf;
    HitRange(fin, target, o, i, f);
    FirstIsNonzero(fin, target, o, i, f);
    UnpackedOutput(reg, fin, target, o, i, f);
    PackValue(o, i, f);
    FirstIsNotTwo(fin, target, o, i, f);
  }

  /** A register that the search returns for `target`, and the round it was found in. */
  ghost predicate Found(fin: Word, target: Word, reg: Word, k: nat) {
    && (exists o, i, f :: First(fin, Round(target, k), o, i, f) && reg == Pack(o, i, f))
    && (forall j: nat | j < k :: !Attainable(fin, Round(target, j)))
  }

  /** The search is a function of crystal and target. */
  lemma FoundOnce(fin: Word, target: Word, reg: Word, k: nat, reg': Word, k': nat)
    requires Found(fin, target, reg, k) && Found(fin, target, reg', k')
    ensures k == k' && reg == reg'
  {
    hide Hit, Pack, Key;
    var o, i, f :| First(fin, Round(target, k), o, i, f) && reg == Pack(o, i, f);
    var o', i', f' :| First(fin, Round(target, k'), o', i', f') && reg' == Pack(o', i', f');
    assert Attainable(fin, Round(target, k)) && Attainable(fin, Round(target, k'));
    assert k == k';
    HitRange(fin, Round(target, k), o, i, f);
    HitRange(fin, Round(target, k), o', i', f');
    KeyInjective(o, i, f, o', i', f');
  }

  /** The register found decodes to the target of its round. */
  lemma FoundRegister(fin: Word, target: Word, reg: Word, k: nat)
    requires Found(fin, target, reg, k)
    ensures 0 < reg < 0x1_0000 && OutputOf(reg, fin) == Round(target, k) && reg / 0x4000 % 4 != 2
    ensures Attainable(fin, Round(target, k))
  {
    hide Pack, OutputOf;
    var o, i, f :| First(fin, Round(target, k), o, i, f) && reg == Pack(o, i, f);
    RegisterDecodes(fin, Round(target, k), reg, o, i, f);
  }

  /** A search that does not run below zero finds the largest attainable frequency of the form
      target - 4000 * j that is not negative; with either crystal that is the case for every target of at
      least 36.75 MHz in steps of 250 kHz. */
  lemma FoundIsLargest(fin: Word, target: Word, reg: Word, k: nat, j: nat)
    requires Found(fin, target, reg, k)
    ensures STEP * k <= target ==> OutputOf(reg, fin) == target - STEP * k
    ensures STEP * k <= target && STEP * j <= target && Attainable(fin, target - STEP * j) ==>
              target - STEP * j <= OutputOf(reg, fin)
    ensures (fin == 12000 || fin == 27000) && target >= 36750 && target % 250 == 0 ==> STEP * k <= target
  {
    hide Attainable, OutputOf, Pack;
    FoundRegister(fin, target, reg, k);
    if (fin == 12000 || fin == 27000) && target >= 36750 && target % 250 == 0 {
      var n := EndsAboveZero(fin, target);
      assert k <= n;
    }
    if STEP * k <= target {
      WrapSmall(target - STEP * k);
      if STEP * j <= target && j < k {
        WrapSmall(target - STEP * j);
        assert !Attainable(fin, Round(target, j));
      }
    }
  }

  // ---- Targets below zero ----

  /** No accepted candidate produces less than 25 MHz. */
  lemma AtLeast25MHz(fin: Word, target: Word, o: nat, i: nat, f: nat)
    requires Hit(fin, target, o, i, f)
    ensures target >= 25000
  {
    AcceptedIsExact(fin, target, o, i, f);
    HitRange(fin, target, o, i, f);
    var q, nr, nf := fin / Nr(i), Nr(i), Nf(f);
    hide No, Hit, Nf;
    NoValues(o);
    ScaledQuotient(fin, nr, nf, q);
    QuotientAtLeast(fin * nf / nr, No(o), 25000);
  }

  lemma ScaledQuotient(fin: nat, nr: nat, nf: nat, q: nat)
    requires nr > 0 && q == fin / nr
    ensures q * nf <= fin * nf / nr
  {
    DivBounds(fin, nr);
    MulMono(fin, q * nr, nf);
    assert q * nr * nf == q * nf * nr;
    QuotientAtLeast(fin * nf, nr, q * nf);
  }

  /** A round above zero in which the search could end is enough for it to end above zero. */
  lemma NoWrap(fin: Word, target: Word, reg: Word, k: nat)
    requires Found(fin, target, reg, k)
    ensures STEP * k <= target <==> exists j: nat :: STEP * j <= target && Attainable(fin, Round(target, j))
    ensures STEP * k <= target ==> OutputOf(reg, fin) == target - STEP * k
  {
    hide Attainable, OutputOf, Pack;
    FoundRegister(fin, target, reg, k);
    if STEP * k <= target { WrapSmall(target - STEP * k); }
    if j: nat :| STEP * j <= target && Attainable(fin, Round(target, j)) {
      assert k <= j;
    }
  }

  /** With any crystal a target below 25 MHz is overshot. */
  lemma LowTargetsOvershoot(fin: Word, target: Word, reg: Word, k: nat)
    requires Found(fin, target, reg, k) && target < 25000
    ensures OutputOf(reg, fin) >= 25000 > target
  {
    hide OutputOf, Pack, Hit;
    FoundRegister(fin, target, reg, k);
    var o, i, f :| Hit(fin, Round(target, k), o, i, f);
    AtLeast25MHz(fin, Round(target, k), o, i, f);
  }
}

/** Which targets the PLL search meets from below, and where it ends up for the others. */
module PllTargets {
  import opened Bits
  import opened Division
  import opened Pll
  import opened PllSearch

  // ---- The 12 MHz crystal: attainable frequencies in closed form ----

  /** Frequencies in front of the output divider. */
  predicate Undivided12(y: nat) {
    100000 <= y <= 500000 && (y % 2000 == 0 || y % 2400 == 0 || y % 3000 == 0)
  }

  predicate Grid12(x: nat) {
    Undivided12(x) || Undivided12(2 * x) || Undivided12(4 * x)
  }

  /** With the 12 MHz crystal a frequency is attainable exactly when it is on this grid. */
  lemma AttainableExactly12(x: Word)
    ensures Attainable(12000, x) <==> Grid12(x)
  {
    hide Hit, Undivided12;
    if o, i, f :| Hit(12000, x, o, i, f) { HitOnGrid(x, o, i, f); }
    if Undivided12(x) { GridHit(x, 0, x); }
    if Undivided12(2 * x) { GridHit(x, 1, 2 * x); }
    if Undivided12(4 * x) { GridHit(x, 3, 4 * x); }
  }

  lemma HitOnGrid(x: Word, o: nat, i: nat, f: nat)
    requires Hit(12000, x, o, i, f)
    ensures Grid12(x)
  {
    HitRange(12000, x, o, i, f);
    AcceptedIsExact(12000, x, o, i, f);
    InDividers12(i, f);
    InputQuotient(i, f + 2);
    NoValues(o);
    var y := 12000 * Nf(f) / Nr(i);
    ExactQuotient(i, f + 2);
    hide Hit, Nf, Nr, No;
    UndividedValue(i, f + 2, y);
    Multiple(y, x, No(o));
  }

  lemma ExactQuotient(i: nat, m: nat)
    requires i <= 4 && m >= 2
    ensures 12000 / Nr(i) * Nf(m - 2) == 12000 * Nf(m - 2) / Nr(i)
  {
    InputQuotient(i, m);
    if i == 0 { assert 12000 / Nr(i) == 3000; }
    else if i == 1 { assert 12000 / Nr(i) == 2000; }
    else if i == 2 { assert 12000 / Nr(i) == 1500; }
    else if i == 3 { assert 12000 / Nr(i) == 1200; }
    else { assert 12000 / Nr(i) == 1000; }
    assert Nf(m - 2) == 2 * m;
  }

  lemma UndividedValue(i: nat, m: nat, y: nat)
    requires i <= 4 && 100000 <= y <= 500000
    requires y == if i == 0 then 6000 * m else if i == 1 then 4000 * m else if i == 2 then 3000 * m
                  else if i == 3 then 2400 * m else 2000 * m
    ensures Undivided12(y) && y % 8 == 0
  {
    var g, c := if i == 2 then 3000 else if i == 3 then 2400 else 2000,
        if i == 0 then 3 * m else if i == 1 then 2 * m else m;
    QuotRem(y, g, c, 0);
    EightDivides(y, g, c);
  }

  lemma EightDivides(y: nat, g: nat, c: nat)
    requires (g == 3000 || g == 2400 || g == 2000) && y == g * c
    ensures y % 8 == 0
  {
    QuotRem(y, 8, g / 8 * c, 0);
  }

  lemma Multiple(y: nat, x: nat, n: nat)
    requires y % 8 == 0 && (n == 1 || n == 2 || n == 4) && x == y / n
    ensures n * x == y
  {
  }

  lemma GridHit(x: Word, o: nat, y: nat)
    requires (o == 0 && y == x) || (o == 1 && y == 2 * x) || (o == 3 && y == 4 * x)
    requires Undivided12(y)
    ensures Attainable(12000, x)
  {
    if y % 2000 == 0 { GridHitAt(x, o, y, 4, y / 2000); }
    else if y % 2400 == 0 { GridHitAt(x, o, y, 3, y / 2400); }
    else { GridHitAt(x, o, y, 2, y / 3000); }
  }

  lemma GridHitAt(x: Word, o: nat, y: nat, i: nat, m: nat)
    requires (o == 0 && y == x) || (o == 1 && y == 2 * x) || (o == 3 && y == 4 * x)
    requires 2 <= i <= 4 && 100000 <= y <= 500000
    requires y == if i == 4 then 2000 * m else if i == 3 then 2400 * m else 3000 * m
    ensures Attainable(12000, x)
  {
    assert m >= 2 && m - 2 < 512;
    InputQuotient(i, m);
    ExactQuotient(i, m);
    NoValues(o);
    InputInRange(i);
    hide No;
    var f := m - 2;
    WrapSmall(12000 * Nf(f));
    assert 12000 * Nf(f) / Nr(i) == y;
    hide Nf, Nr, Wrap;
    assert Passes(12000, i, f) by { WrapSmall(12000 / Nr(i) * Nf(f)); }
    hide Passes;
    assert Output(12000, o, i, f) == x;
    assert Hit(12000, x, o, i, f);
  }

  lemma InputInRange(i: nat)
    requires i <= 4
    ensures 1000 <= 12000 / Nr(i) <= 15000
  {
    if i == 0 { assert Nr(i) == 4; }
    else if i == 1 { assert Nr(i) == 6; }
    else if i == 2 { assert Nr(i) == 8; }
    else if i == 3 { assert Nr(i) == 10; }
    else { assert Nr(i) == 12; }
  }

  // ---- The 12 MHz crystal: which targets are met from below ----

  /** The residues modulo 4000 that occur on the grid, written as a property of any number. */
  predicate Live12(x: nat) {
    x % 200 == 0 || x % 250 == 0
  }

  lemma GridIsLive(x: nat)
    requires Grid12(x)
    ensures Live12(x) && 25000 <= x <= 500000
  {
    if Undivided12(x) { LiveMultiple(x, x, 1); }
    else if Undivided12(2 * x) { LiveMultiple(2 * x, x, 2); }
    else { LiveMultiple(4 * x, x, 4); }
  }

  lemma LiveMultiple(y: nat, x: nat, n: nat)
    requires Undivided12(y) && y == n * x && (n == 1 || n == 2 || n == 4)
    ensures Live12(x)
  {
    if y % 2400 == 0 {
      var c := y / 2400;
      QuotRem(x, 200, (if n == 1 then 12 else if n == 2 then 6 else 3) * c, 0);
    } else if y % 2000 == 0 {
      var c := y / 2000;
      QuotRem(x, 250, (if n == 1 then 8 else if n == 2 then 4 else 2) * c, 0);
    } else {
      var c := y / 3000;
      QuotRem(x, 250, (if n == 1 then 12 else if n == 2 then 6 else 3) * c, 0);
    }
  }

  /** The residues stay the same from round to round: 4000 is a multiple of 200 and of 250. */
  lemma SameLive(x: nat, j: nat)
    requires STEP * j <= x
    ensures Live12(x - STEP * j) <==> Live12(x)
  {
    QuotRem(x, 200, 20 * j + (x - STEP * j) / 200, (x - STEP * j) % 200);
    QuotRem(x, 250, 16 * j + (x - STEP * j) / 250, (x - STEP * j) % 250);
  }

  /** A test on the target alone. From 36.75 MHz up every multiple of 200 or 250 kHz passes; below, the
      target or one of the next two lower rounds has to be on the grid. */
  predicate Met12(target: nat) {
    if target >= 36750 then Live12(target)
    else Grid12(target) || (target >= 4000 && Grid12(target - 4000)) || (target >= 8000 && Grid12(target - 8000))
  }

  /** With the 12 MHz crystal the search ends without running below zero exactly for these targets. */
  lemma NoWrapExactly12(target: Word, reg: Word, k: nat)
    requires Found(12000, target, reg, k)
    ensures STEP * k <= target <==> Met12(target)
    ensures Met12(target) ==> OutputOf(reg, 12000) == target - STEP * k
  {
    hide Found, Grid12, Met12, Attainable, OutputOf;
    NoWrap(12000, target, reg, k);
    if STEP * k <= target {
      FoundRegister(12000, target, reg, k);
      WrapSmall(target - STEP * k);
      GridBelow(target, k);
    }
    if Met12(target) {
      var j := MetRound(target);
      WrapSmall(target - STEP * j);
      AttainableExactly12(target - STEP * j);
      assert Attainable(12000, Round(target, j));
    }
  }

  lemma GridBelow(target: Word, k: nat)
    requires STEP * k <= target && Attainable(12000, target - STEP * k)
    ensures Met12(target)
  {
    hide Attainable, Grid12;
    AttainableExactly12(target - STEP * k);
    GridIsLive(target - STEP * k);
    SameLive(target, k);
    if target < 36750 { assert k <= 2; }
  }

  lemma MetRound(target: Word) returns (j: nat)
    requires Met12(target)
    ensures STEP * j <= target && Grid12(target - STEP * j)
  {
    if target < 36750 {
      j := if Grid12(target) then 0 else if target >= 4000 && Grid12(target - 4000) then 1 else 2;
    } else if target % 250 == 0 {
      j := EndsAboveZero(12000, target);
      WrapSmall(target - STEP * j);
      AttainableExactly12(target - STEP * j);
    } else {
      j := Reach600(target / 200);
      Grid600((target - STEP * j) / 600);
    }
  }

  /** 3 * 7 = 21, so every multiple of 200 kHz is a multiple of 600 kHz plus a multiple of 4000 kHz. */
  lemma Reach600(u: nat) returns (j: nat)
    requires u >= 183
    ensures 20 * j <= u && (u - 20 * j) % 3 == 0 && 42 <= (u - 20 * j) / 3 <= 61
  {
    var c := (7 * u - 42) / 20;
    var m := 7 * u - 20 * c;
    j := 3 * c - u;
    assert u - 20 * j == 3 * (7 * u - 20 * c);
  }

  lemma Grid600(m: nat)
    requires 42 <= m <= 208
    ensures Grid12(600 * m)
  {
    QuotRem(4 * (600 * m), 2400, m, 0);
  }

  // ---- Any crystal: what a search finds that has run below zero ----

  /** Residue modulo 4000 of the rounds after p runs through the unsigned range; 2^32 is 3296 modulo 4000. */
  function Pass(target: nat, p: nat): nat {
    (target + 3296 * p) % STEP
  }

  /** y is met before round k: its round number is smaller. */
  lemma EarlierRound(target: Word, k: nat, p: nat, q: nat, y: Word)
    requires STEP * k <= target + TWO32 * p && q <= p && y <= target + TWO32 * q
    requires y % STEP == Pass(target, q)
    requires target + TWO32 * p - STEP * k < y + TWO32 * (p - q)
    ensures exists j: nat :: j < k && Round(target, j) == y
  {
    var d := target + TWO32 * q - y;
    PassResidue(target, q, y);
    var j := d / STEP;
    assert target - STEP * j == y - TWO32 * q;
    RoundIs(target, j, q, y);
    assert j < k;
  }

  lemma RoundIs(target: Word, j: nat, q: nat, y: Word)
    requires target - STEP * j == y - TWO32 * q
    ensures Round(target, j) == y
  {
    WrapMultiple(y, 0 - (q as int));
  }

  lemma PassResidue(target: nat, q: nat, y: nat)
    requires y <= target + TWO32 * q && y % STEP == Pass(target, q)
    ensures (target + TWO32 * q - y) % STEP == 0
  {
    var a, b := (target + 3296 * q) / STEP, y / STEP;
    assert target + 3296 * q == STEP * a + y % STEP && y == STEP * b + y % STEP;
    QuotRem(target + TWO32 * q - y, STEP, a - b + 1073741 * q, 0);
  }

  lemma ResidueOfRound(target: Word, k: nat) returns (p: nat)
    ensures Round(target, k) == target - STEP * k + TWO32 * p
    ensures Round(target, k) % STEP == Pass(target, p)
    ensures p == 0 <==> STEP * k <= target
  {
    var x := target - STEP * k;
    p := -(x / TWO32);
    var w, c := Round(target, k), Pass(target, p);
    assert target + 3296 * p == STEP * ((target + 3296 * p) / STEP) + c;
    QuotRem(w, STEP, (target + 3296 * p) / STEP - k + 1073741 * p, c);
  }

  /** A search that has run below zero p times ends at the largest attainable frequency with the residue of
      pass p, and no earlier pass holds an attainable frequency. */
  lemma WrappedSearch(fin: Word, target: Word, reg: Word, k: nat) returns (p: nat)
    requires Found(fin, target, reg, k)
    ensures p == 0 <==> STEP * k <= target
    ensures OutputOf(reg, fin) == Round(target, k) && Attainable(fin, Round(target, k))
    ensures Round(target, k) % STEP == Pass(target, p)
    ensures forall y: Word | Attainable(fin, y) && y % STEP == Pass(target, p) && (p > 0 || y <= target) ::
            y <= Round(target, k)
    ensures forall y: Word, q: nat | 1 <= q < p && Attainable(fin, y) :: y % STEP != Pass(target, q)
  {
    hide Attainable, OutputOf, Pass;
    FoundRegister(fin, target, reg, k);
    p := ResidueOfRound(target, k);
    forall y: Word | Attainable(fin, y) && y % STEP == Pass(target, p) && (p > 0 || y <= target)
      ensures y <= Round(target, k)
    {
      if y > Round(target, k) { EarlierRound(target, k, p, p, y); }
    }
    forall y: Word, q: nat | 1 <= q < p && Attainable(fin, y) ensures y % STEP != Pass(target, q) {
      if y % STEP == Pass(target, q) { EarlierRound(target, k, p, q, y); }
    }
  }

  // ---- The 12 MHz crystal: where the other targets end up ----

  /** The largest m up to `top` with m % n == want % n. */
  function Last(top: nat, want: nat, n: nat): (m: int)
    requires n > 0
    ensures top - n < m <= top
  {
    top - (top - want) % n
  }

  /** The largest grid frequency with residue r modulo 4000, for a live residue. Each case is a family of
      multiples: 2000, 3000 and 2400 kHz undivided, 1200 and 1500 halved, 600 and 750 divided by four. */
  function Top12(r: nat): nat {
    if r % 2000 == 0 then 2000 * Last(250, r / 2000, 2)
    else if r % 1000 == 0 then 3000 * Last(166, 11 * (r / 1000), 4)
    else if r % 800 == 0 then 2400 * Last(208, 7 * (r / 800), 5)
    else if r % 400 == 0 then 1200 * Last(208, 7 * (r / 400), 10)
    else if r % 500 == 0 then 1500 * Last(166, 11 * (r / 500), 8)
    else if r % 200 == 0 then 600 * Last(208, 7 * (r / 200), 20)
    else 750 * Last(166, 11 * (r / 250), 16)
  }

  lemma LastFits(top: nat, want: nat, n: nat, m: nat)
    requires n > 0 && m <= top && (m - want) % n == 0
    ensures m <= Last(top, want, n)
  {
    var a, d := (m - want) / n, (top - want) % n;
    assert m == want + n * a && top == want + n * ((top - want) / n) + d;
    if m > top - d {
      LessMul((top - want) / n, a, n);
      MulMono(a, (top - want) / n + 1, n);
    }
  }

  lemma LastCongruent(top: nat, want: nat, n: nat)
    requires n > 0
    ensures (Last(top, want, n) - want) % n == 0
  {
    var q := (top - want) / n;
    assert top - want == n * q + (top - want) % n;
    assert n * q == q * n;
    QuotRem(Last(top, want, n) - want, n, q, 0);
  }

  /** Solving 3 * m == s modulo n: `inv` is the inverse of 3. */
  lemma SolveForward(n: nat, inv: nat, e: nat, m: int, c: int, s: int)
    requires n > 0 && 3 * inv == 1 + e * n && 3 * m == n * c + s
    ensures (m - inv * s) % n == 0
  {
    var x, y := n * c, e * n;
    assert inv * (3 * m) == inv * x + inv * s;
    assert inv * (3 * m) == m + y * m by { assert 3 * inv * m == inv * (3 * m) && (1 + y) * m == m + y * m; }
    assert inv * x == (inv * c) * n && y * m == (e * m) * n;
    assert m - inv * s == (inv * c - e * m) * n;
    QuotRem(m - inv * s, n, inv * c - e * m, 0);
  }

  lemma SolveBack(n: nat, inv: nat, e: nat, m: int, s: int) returns (c: int)
    requires n > 0 && 3 * inv == 1 + e * n && (m - inv * s) % n == 0
    ensures 3 * m == n * c + s
  {
    var z := (m - inv * s) / n;
    assert m == inv * s + n * z;
    c := e * s + 3 * z;
    assert 3 * (inv * s) == s + n * (e * s) by {
      assert (1 + e * n) * s == s + n * (e * s) && 3 * inv * s == 3 * (inv * s); }
    assert 3 * (n * z) == n * (3 * z) && n * c == n * (e * s) + n * (3 * z);
  }

  /** The families of grid frequencies, as numbers of the form g * m. */
  lemma GridFamilies(x: nat) returns (g: nat, m: nat)
    requires Grid12(x)
    ensures x == g * m
    ensures (g == 2000 && m <= 250) || (g == 3000 && m <= 166) || (g == 2400 && m <= 208) || (g == 1000 && m <= 250)
         || (g == 1500 && m <= 166) || (g == 1200 && m <= 208) || (g == 500 && m <= 250) || (g == 750 && m <= 166)
         || (g == 600 && m <= 208)
  {
    hide Undivided12;
    if Undivided12(x) { g, m := Divided(x, x, 1); }
    else if Undivided12(2 * x) { g, m := Divided(2 * x, x, 2); }
    else { g, m := Divided(4 * x, x, 4); }
  }

  lemma Divided(y: nat, x: nat, n: nat) returns (g: nat, m: nat)
    requires Undivided12(y) && y == n * x && (n == 1 || n == 2 || n == 4)
    ensures x == g * m && (n * g == 2000 || n * g == 2400 || n * g == 3000)
    ensures m <= if n * g == 2000 then 250 else if n * g == 2400 then 208 else 166
  {
    var h := if y % 2000 == 0 then 2000 else if y % 2400 == 0 then 2400 else 3000;
    m := y / h;
    g := h / n;
    assert y == h * m;
    hide Undivided12;
    assert h == n * g;
  }

  /** How high the entries are: a coarser family reaches further up than a finer one. */
  lemma TopLow(r: nat)
    ensures r % 1000 == 0 || r % 800 == 0 ==> Top12(r) >= 489000
    ensures r % 2000 == 0 ==> Top12(r) >= 498000
    ensures r % 4000 == 0 ==> Top12(r) == 500000
    ensures r % 400 == 0 || r % 500 == 0 ==> Top12(r) >= 238500
    ensures Top12(r) >= 113250
  {
    if r % 4000 == 0 { QuotRem(r, 2000, 2 * (r / 4000), 0); }
    assert r % 4000 == 0 ==> Last(250, r / 2000, 2) == 250;
    hide Last;
  }

  /** The residue decides which families a frequency can belong to. */
  lemma FamilyResidues(x: nat, g: nat, m: nat, r: nat)
    requires x == g * m && r == x % STEP
    ensures g == 2000 ==> r % 2000 == 0 && (m - r / 2000) % 2 == 0
    ensures g == 3000 ==> r % 1000 == 0 && (m - 11 * (r / 1000)) % 4 == 0
    ensures g == 2400 ==> r % 800 == 0 && (m - 7 * (r / 800)) % 5 == 0
    ensures g == 1200 ==> r % 400 == 0 && (m - 7 * (r / 400)) % 10 == 0
    ensures g == 1500 ==> r % 500 == 0 && (m - 11 * (r / 500)) % 8 == 0
    ensures g == 600 ==> r % 200 == 0 && (m - 7 * (r / 200)) % 20 == 0
    ensures g == 750 ==> r % 250 == 0 && (m - 11 * (r / 250)) % 16 == 0
    ensures g == 1000 ==> r % 1000 == 0
    ensures g == 500 ==> r % 500 == 0
  {
    var c := x / STEP;
    assert x == STEP * c + r;
    if g == 2000 {
      QuotRem(r, 2000, m - 2 * c, 0);
      QuotRem(m - r / 2000, 2, c, 0);
    } else if g == 1000 {
      QuotRem(r, 1000, m - 4 * c, 0);
    } else if g == 500 {
      QuotRem(r, 500, m - 8 * c, 0);
    } else if g >= 1500 {
      ThirdFamily(g, m, c, r);
    } else {
      FineFamily(g, m, c, r);
    }
  }

  lemma ThirdFamily(g: nat, m: nat, c: nat, r: nat)
    requires g * m == STEP * c + r
    ensures g == 3000 ==> r % 1000 == 0 && (m - 11 * (r / 1000)) % 4 == 0
    ensures g == 2400 ==> r % 800 == 0 && (m - 7 * (r / 800)) % 5 == 0
    ensures g == 1500 ==> r % 500 == 0 && (m - 11 * (r / 500)) % 8 == 0
  {
    if g == 3000 {
      QuotRem(r, 1000, 3 * m - 4 * c, 0);
      SolveForward(4, 11, 8, m, c, r / 1000);
    } else if g == 2400 {
      QuotRem(r, 800, 3 * m - 5 * c, 0);
      SolveForward(5, 7, 4, m, c, r / 800);
    } else if g == 1500 {
      QuotRem(r, 500, 3 * m - 8 * c, 0);
      SolveForward(8, 11, 4, m, c, r / 500);
    }
  }

  lemma FineFamily(g: nat, m: nat, c: nat, r: nat)
    requires g * m == STEP * c + r
    ensures g == 1200 ==> r % 400 == 0 && (m - 7 * (r / 400)) % 10 == 0
    ensures g == 600 ==> r % 200 == 0 && (m - 7 * (r / 200)) % 20 == 0
    ensures g == 750 ==> r % 250 == 0 && (m - 11 * (r / 250)) % 16 == 0
  {
    if g == 1200 {
      QuotRem(r, 400, 3 * m - 10 * c, 0);
      SolveForward(10, 7, 2, m, c, r / 400);
    } else if g == 600 {
      QuotRem(r, 200, 3 * m - 20 * c, 0);
      SolveForward(20, 7, 1, m, c, r / 200);
    } else if g == 750 {
      QuotRem(r, 250, 3 * m - 16 * c, 0);
      SolveForward(16, 11, 2, m, c, r / 250);
    }
  }

  /** No grid frequency with the same residue lies above Top12. */
  lemma TopIsLargest(x: nat)
    requires Grid12(x)
    ensures x <= Top12(x % STEP)
  {
    hide Grid12, Top12;
    var r := x % STEP;
    var g, m := GridFamilies(x);
    FamilyResidues(x, g, m, r);
    if g >= 2000 { UndividedBelowTop(g, m, r); }
    else if g >= 1000 { HalvedBelowTop(g, m, r); }
    else { QuarteredBelowTop(g, m, r); }
  }

  lemma UndividedBelowTop(g: nat, m: nat, r: nat)
    requires (g == 2000 && m <= 250 && r % 2000 == 0 && (m - r / 2000) % 2 == 0)
          || (g == 3000 && m <= 166 && r % 1000 == 0 && (m - 11 * (r / 1000)) % 4 == 0)
          || (g == 2400 && m <= 208 && r % 800 == 0 && (m - 7 * (r / 800)) % 5 == 0)
    ensures g * m <= Top12(r)
  {
    hide Last;
    TopLow(r);
    if g == 2000 { LastFits(250, r / 2000, 2, m); }
    else if g == 3000 {
      if r % 2000 != 0 { LastFits(166, 11 * (r / 1000), 4, m); }
    } else {
      Coarser800(r);
      if r % 4000 != 0 { LastFits(208, 7 * (r / 800), 5, m); }
    }
  }

  lemma Coarser800(r: nat)
    requires r % 800 == 0
    ensures r % 1000 == 0 || r % 2000 == 0 ==> r % 4000 == 0
  {
    var a, b := r / 800, r / 1000;
    if r % 2000 == 0 { QuotRem(r, 1000, 2 * (r / 2000), 0); }
    if r % 1000 == 0 { QuotRem(r, 4000, a - b, 0); }
  }

  lemma HalvedBelowTop(g: nat, m: nat, r: nat)
    requires (g == 1000 && m <= 250 && r % 1000 == 0)
          || (g == 1500 && m <= 166 && r % 500 == 0 && (m - 11 * (r / 500)) % 8 == 0)
          || (g == 1200 && m <= 208 && r % 400 == 0 && (m - 7 * (r / 400)) % 10 == 0)
    ensures g * m <= Top12(r)
  {
    hide Last;
    TopLow(r);
    if r % 1000 != 0 && r % 800 != 0 {
      Coarser(r);
      if g == 1500 { LastFits(166, 11 * (r / 500), 8, m); } else { LastFits(208, 7 * (r / 400), 10, m); }
    }
  }

  lemma QuarteredBelowTop(g: nat, m: nat, r: nat)
    requires (g == 500 && m <= 250 && r % 500 == 0)
          || (g == 750 && m <= 166 && r % 250 == 0 && (m - 11 * (r / 250)) % 16 == 0)
          || (g == 600 && m <= 208 && r % 200 == 0 && (m - 7 * (r / 200)) % 20 == 0)
    ensures g * m <= Top12(r)
  {
    hide Last;
    TopLow(r);
    if r % 400 != 0 && r % 500 != 0 {
      Coarser(r);
      if g == 750 { LastFits(166, 11 * (r / 250), 16, m); } else { LastFits(208, 7 * (r / 200), 20, m); }
    }
  }

  /** Which divisibilities follow from which. */
  lemma Coarser(r: nat)
    ensures r % 2000 == 0 ==> r % 1000 == 0 && r % 400 == 0
    ensures r % 1000 == 0 ==> r % 500 == 0
    ensures r % 800 == 0 ==> r % 400 == 0
    ensures r % 400 == 0 && r % 500 == 0 ==> r % 1000 == 0
    ensures r % 200 == 0 && r % 250 == 0 ==> r % 500 == 0
  {
    Coarsest(r);
    if r % 2000 == 0 {
      QuotRem(r, 1000, 2 * (r / 2000), 0);
      QuotRem(r, 400, 5 * (r / 2000), 0);
    }
    if r % 1000 == 0 { QuotRem(r, 500, 2 * (r / 1000), 0); }
    if r % 800 == 0 { QuotRem(r, 400, 2 * (r / 800), 0); }
  }

  lemma Coarsest(r: nat)
    ensures r % 400 == 0 && r % 500 == 0 ==> r % 1000 == 0
    ensures r % 200 == 0 && r % 250 == 0 ==> r % 500 == 0
  {
    var a, b := r / 400, r / 500;
    if r % 400 == 0 && r % 500 == 0 { QuotRem(r, 1000, 2 * (a - b), 0); }
    var c, d := r / 200, r / 250;
    if r % 200 == 0 && r % 250 == 0 { QuotRem(r, 500, 2 * (c - d), 0); }
  }

  /** Top12 itself is on the grid and has the residue asked for. */
  lemma TopAttained(r: nat)
    requires r < STEP && Live12(r)
    ensures Grid12(Top12(r)) && Top12(r) % STEP == r
  {
    hide Last;
    if r % 2000 == 0 {
      var m := Last(250, r / 2000, 2);
      LastCongruent(250, r / 2000, 2);
      QuotRem(2000 * m, STEP, (m - r / 2000) / 2, r);
      OnGrid(2000 * m, 2000, m, 1);
    } else if r % 1000 == 0 { TopMember(r, 1000, 166, 4, 11, 8, 1); }
    else if r % 800 == 0 { TopMember(r, 800, 208, 5, 7, 4, 1); }
    else if r % 400 == 0 { TopMember(r, 400, 208, 10, 7, 2, 2); }
    else if r % 500 == 0 { TopMember(r, 500, 166, 8, 11, 4, 2); }
    else if r % 200 == 0 { TopMember(r, 200, 208, 20, 7, 1, 4); }
    else { TopMember(r, 250, 166, 16, 11, 2, 4); }
  }

  lemma TopMember(r: nat, b: nat, top: nat, n: nat, inv: nat, e: nat, d: nat)
    requires (b, top, n, inv, e, d) in {(1000, 166, 4, 11, 8, 1), (800, 208, 5, 7, 4, 1), (400, 208, 10, 7, 2, 2),
                                        (500, 166, 8, 11, 4, 2), (200, 208, 20, 7, 1, 4), (250, 166, 16, 11, 2, 4)}
    requires r < STEP && r % b == 0
    ensures var m := Last(top, inv * (r / b), n); m > 0 && 3 * b * m % STEP == r && Grid12(3 * b * m)
  {
    hide Last, Grid12;
    var s := r / b;
    var m := Last(top, inv * s, n);
    LastCongruent(top, inv * s, n);
    var c := SolveBack(n, inv, e, m, s);
    assert r == b * s;
    QuotRem(3 * b * m, STEP, c, r);
    OnGrid(3 * b * m, 3 * b, m, d);
  }

  lemma OnGrid(x: nat, g: nat, m: nat, d: nat)
    requires x == g * m && (d == 1 || d == 2 || d == 4)
    requires d * g == 2000 || d * g == 2400 || d * g == 3000
    requires 100000 <= d * x <= 500000
    ensures Grid12(x)
  {
    assert d * x == d * g * m;
    QuotRem(d * x, d * g, m, 0);
  }

  // ---- The 12 MHz crystal: the promise of the comment, exactly ----

  /** The first pass from p on that holds grid frequencies; one comes within 125 passes. */
  function FirstPass(target: nat, p: nat): nat
    decreases 125 - p
  {
    if p >= 125 || Live12(Pass(target, p)) then p else FirstPass(target, p + 1)
  }

  /** Where a search ends that has run below zero, computed from the target alone. */
  function Wrapped12(target: nat): nat {
    Top12(Pass(target, FirstPass(target, 1)))
  }

  lemma {:induction false} FirstPassIs(target: nat, s: nat, p: nat)
    requires s <= p <= 125 && Live12(Pass(target, p)) && forall q: nat | s <= q < p :: !Live12(Pass(target, q))
    ensures FirstPass(target, s) == p
    decreases p - s
  {
    hide Live12, Pass;
    if s < p { FirstPassIs(target, s + 1, p); }
  }

  /** 46 * (125 - 87 * h) + 2 * h is a multiple of 250, so some pass of an even target is live. */
  lemma SomePass(target: nat) returns (q: nat)
    requires target % 2 == 0
    ensures 1 <= q <= 125 && Live12(Pass(target, q))
  {
    var h := target / 2;
    q := 125 - 87 * h % 125;
    var c := 87 * h / 125;
    var z := 1648 * (1 + c) - 1147 * h;
    assert target + 3296 * q == 250 * z;
    QuotRem(Pass(target, q), 250, z - 16 * (250 * z / STEP), 0);
  }

  lemma LiveResidue(x: nat)
    ensures Live12(x % STEP) <==> Live12(x)
  {
    SameLive(x, x / STEP);
  }

  /** A 12 MHz target that is not met from below is set to Wrapped12. */
  lemma WrappedExactly12(target: Word, reg: Word, k: nat)
    requires Found(12000, target, reg, k) && !Met12(target)
    ensures OutputOf(reg, 12000) == Wrapped12(target)
  {
    hide Found, Met12, Attainable, OutputOf, Top12, Live12, Grid12, Pass;
    NoWrapExactly12(target, reg, k);
    var p := WrappedSearch(12000, target, reg, k);
    var x := Round(target, k);
    hide Round;
    PassFound(target, x, p);
    EvenTarget(target, k);
    var q0 := SomePass(target);
    forall q: nat | 1 <= q < p ensures !Live12(Pass(target, q)) {
      if Live12(Pass(target, q)) { TopOfPass(target, q); }
    }
    assert p <= q0;
    FirstPassIs(target, 1, p);
    TopOfPass(target, p);
    AttainableExactly12(x);
    TopIsLargest(x);
  }

  lemma EvenTarget(target: Word, k: nat)
    requires Attainable(12000, Round(target, k))
    ensures target % 2 == 0
  {
    if target % 2 == 1 { NeverEnds12(target, k); }
  }

  lemma PassFound(target: Word, x: Word, p: nat)
    requires Attainable(12000, x) && x % STEP == Pass(target, p)
    ensures Live12(Pass(target, p))
  {
    AttainableExactly12(x);
    GridIsLive(x);
    LiveResidue(x);
  }

  lemma TopOfPass(target: Word, q: nat)
    requires Live12(Pass(target, q))
    ensures var y := Top12(Pass(target, q)); y < TWO32 && Attainable(12000, y) && y % STEP == Pass(target, q)
  {
    hide Grid12, Top12, Attainable;
    TopAttained(Pass(target, q));
    GridIsLive(Top12(Pass(target, q)));
    AttainableExactly12(Top12(Pass(target, q)));
  }

  /** The comment on sysSetSystemClock promises a PLL frequency not over the specified one. With the 12 MHz
      crystal the promise is kept exactly when the target is met from below, or is so high that even the
      frequency reached after running below zero is not above it. */
  lemma NotOverExactly12(target: Word, reg: Word, k: nat)
    requires Found(12000, target, reg, k)
    ensures OutputOf(reg, 12000) <= target <==> Met12(target) || Wrapped12(target) <= target
  {
    hide Found, Met12, OutputOf, Wrapped12;
    NoWrapExactly12(target, reg, k);
    if !Met12(target) { WrappedExactly12(target, reg, k); }
  }

  /** No 12 MHz target below 113.25 MHz that is not met from below is kept to; every one from 500 MHz is. */
  lemma OvershootRange12(target: Word)
    ensures target < 113250 ==> Wrapped12(target) > target
    ensures target >= 500000 && target % 2 == 0 ==> Wrapped12(target) <= target
  {
    hide Top12, Grid12, Live12;
    var r := Pass(target, FirstPass(target, 1));
    TopLow(r);
    if target % 2 == 0 {
      FirstPassLive(target, 1);
      TopAttained(r);
      GridIsLive(Top12(r));
    }
  }

  lemma FirstPassLive(target: nat, s: nat)
    requires target % 2 == 0 && 1 <= s <= 125 && forall q: nat | 1 <= q < s :: !Live12(Pass(target, q))
    ensures Live12(Pass(target, FirstPass(target, s)))
    decreases 125 - s
  {
    hide Live12, Pass;
    if !Live12(Pass(target, s)) {
      var q0 := SomePass(target);
      if s < 125 { FirstPassLive(target, s + 1); }
    }
  }

  /** For example, 96.1 MHz is not met from below, and the PLL is set to 238.5 MHz. */
  lemma Overshoots96100(reg: Word, k: nat)
    requires Found(12000, 96100, reg, k)
    ensures STEP * k > 96100 && OutputOf(reg, 12000) == 238500
  {
    hide Found, OutputOf, Wrapped12;
    assert !Met12(96100);
    Wrapped96100();
    NoWrapExactly12(96100, reg, k);
    WrappedExactly12(96100, reg, k);
  }

  lemma Wrapped96100()
    ensures Wrapped12(96100) == 238500
  {
    hide Top12;
    forall q: nat | 1 <= q < 25 ensures !Live12(Pass(96100, q)) {
      LiveResidue(96100 + 3296 * q);
      NotLive96100(q);
    }
    assert Pass(96100, 25) == 2500;
    FirstPassIs(96100, 1, 25);
    Top2500();
  }

  lemma NotLive96100(q: nat)
    requires 1 <= q < 25
    ensures !Live12(96100 + 3296 * q)
  {
    var x := 96100 + 3296 * q;
    QuotRem(x, 8, 12012 + 412 * q, 4);
    if x % 200 == 0 { QuotRem(x, 8, 25 * (x / 200), 0); }
    assert (46 * q + 100) % 250 != 0;
    QuotRem(x, 250, 384 + 13 * q + (46 * q + 100) / 250, (46 * q + 100) % 250);
  }

  lemma Top2500()
    ensures Top12(2500) == 238500
  {
  }

  // ---- The 27 MHz crystal ----

  /** Targets that the search meets from below with the 27 MHz crystal, by remainder alone. */
  predicate Sure27(target: nat) {
    || (target >= 36750 && target % 250 == 0)
    || (target >= 60750 && target % 125 == 0)
    || (target >= 157950 && target % 50 == 0)
  }

  /** NR = 12, NO = 4: multiples of 1125 kHz. */
  lemma Attain1125(m: nat)
    requires 23 <= m <= 111
    ensures Hit(27000, 1125 * m, 3, 4, m - 2)
  {
    assert Nr(4) == 12 && Nf(m - 2) == 2 * m;
    assert 27000 * (2 * m) == 54000 * m;
  }

  /** NR = 20, NO = 2: multiples of 1350 kHz. */
  lemma Attain1350(m: nat)
    requires 38 <= m <= 185
    ensures Hit(27000, 1350 * m, 1, 8, m - 2)
  {
    assert Nr(8) == 20 && Nf(m - 2) == 2 * m;
    assert 27000 * (2 * m) == 54000 * m;
  }

  lemma SureRound(target: Word) returns (j: nat)
    requires Sure27(target)
    ensures STEP * j <= target && Attainable(27000, Round(target, j))
  {
    hide Hit, Round;
    if target >= 36750 && target % 250 == 0 {
      j := EndsAboveZero(27000, target);
    } else if target >= 60750 && target % 125 == 0 {
      j := Reach1125(target / 125);
      var m := (target / 125 - 32 * j) / 9;
      RoundIs(target, j, 0, 1125 * m);
      Attain1125(m);
    } else {
      j := Reach1350(target / 50);
      var m := (target / 50 - 80 * j) / 27;
      RoundIs(target, j, 0, 1350 * m);
      Attain1350(m);
    }
  }

  /** 9 * 25 = 1 + 7 * 32. */
  lemma Reach1125(u: nat) returns (j: nat)
    requires u >= 486
    ensures 32 * j <= u && (u - 32 * j) % 9 == 0 && 23 <= (u - 32 * j) / 9 <= 54
  {
    var c := (25 * u - 23) / 32;
    var m := 25 * u - 32 * c;
    j := 9 * c - 7 * u;
    assert u - 32 * j == 9 * m;
  }

  /** 27 * 3 = 1 + 80. */
  lemma Reach1350(u: nat) returns (j: nat)
    requires u >= 3159
    ensures 80 * j <= u && (u - 80 * j) % 27 == 0 && 38 <= (u - 80 * j) / 27 <= 117
  {
    var c := (3 * u - 38) / 80;
    var m := 3 * u - 80 * c;
    j := 27 * c - u;
    assert u - 80 * j == 27 * m;
  }

  /** With the 27 MHz crystal these targets are met without running below zero. */
  lemma NoWrap27(target: Word, reg: Word, k: nat)
    requires Found(27000, target, reg, k) && Sure27(target)
    ensures STEP * k <= target && OutputOf(reg, 27000) == target - STEP * k
  {
    hide Found, Attainable, OutputOf, Sure27;
    NoWrap(27000, target, reg, k);
    var j := SureRound(target);
  }

  /** Nothing below 25071 kHz is attainable with the 27 MHz crystal, so every such target is overshot. */
  lemma Overshoots27(target: Word, reg: Word, k: nat)
    requires Found(27000, target, reg, k) && target < 25071
    ensures OutputOf(reg, 27000) > target
  {
    hide OutputOf, Pack, Hit;
    FoundRegister(27000, target, reg, k);
    var o, i, f :| Hit(27000, Round(target, k), o, i, f);
    AtLeast25071(Round(target, k), o, i, f);
  }

  /** The frequency in front of the output divider. */
  lemma UndividedHit(x: Word, o: nat, i: nat, f: nat) returns (y: nat)
    requires Hit(27000, x, o, i, f)
    ensures i <= 11 && o < 4 && y >= 100000 && x == y / No(o)
    ensures y * (2 * (i + 2)) <= 27000 * (2 * (f + 2)) < (y + 1) * (2 * (i + 2))
  {
    AcceptedIsExact(27000, x, o, i, f);
    HitRange(27000, x, o, i, f);
    hide Hit, No;
    InDividers27(i);
    y := 27000 * Nf(f) / Nr(i);
    ScaledQuotient(27000, Nr(i), Nf(f), 27000 / Nr(i));
    DivBounds(27000 * Nf(f), Nr(i));
  }

  lemma AtLeast25071(x: Word, o: nat, i: nat, f: nat)
    requires Hit(27000, x, o, i, f)
    ensures x >= 25071
  {
    var y := UndividedHit(x, o, i, f);
    NoSuchMultiple(i + 2, f + 2, y);
    NoValues(o);
    hide No, Hit;
    SmallQuotient(y, No(o), x);
  }

  lemma SmallQuotient(y: nat, n: nat, x: nat)
    requires (n == 1 || n == 2 || n == 4) && x == y / n && y >= 100284
    ensures x >= 25071
  {
  }

  lemma InDividers27(i: nat)
    requires 27000 / Nr(i) >= 1000
    ensures i <= 11
  {
    DivBounds(27000, Nr(i));
    MulBound(1000, 27000 / Nr(i), Nr(i), Nr(i));
  }

  lemma NoSuchMultiple(n: nat, m: nat, y: nat)
    requires 2 <= n <= 13 && y * (2 * n) <= 27000 * (2 * m) < (y + 1) * (2 * n)
    ensures !(100000 <= y < 100284)
  {
    assert n == 2 || n == 3 || n == 4 || n == 5 || n == 6 || n == 7 || n == 8 || n == 9 ||
      n == 10 || n == 11 || n == 12 || n == 13;
  }

  /** The only FB_DV + 2 that can produce x with given dividers. */
  function Feedback27(x: nat, nd: nat): nat {
    (x * nd + 26999) / 27000
  }

  /** x is attainable with IN_DV = i and OUT_DV = o: one candidate to test. */
  predicate Fits27(x: nat, i: nat, o: nat)
    requires o < 4
  {
    var nd := (i + 2) * No(o);
    var m := Feedback27(x, nd);
    2 <= m < 514 && 27000 * m < (x + 1) * nd && 100000 <= 27000 / Nr(i) * (2 * m) <= 500000
  }

  /** Attainable with the 27 MHz crystal, without a search over FB_DV. */
  predicate Grid27(x: nat) {
    exists i: nat, o: nat | i < 12 && o < 4 :: Fits27(x, i, o)
  }

  lemma AttainableExactly27(x: Word)
    ensures Attainable(27000, x) <==> Grid27(x)
  {
    hide Hit, Fits27;
    if o, i, f :| Hit(27000, x, o, i, f) {
      HitFits(x, o, i, f);
    }
    if i: nat, o: nat :| i < 12 && o < 4 && Fits27(x, i, o) {
      FitsHit(x, i, o);
    }
  }

  /** The output as one division. */
  lemma OneDivision(i: nat, m: nat, o: nat)
    requires o < 4
    ensures 27000 * (2 * m) / Nr(i) / No(o) == 27000 * m / ((i + 2) * No(o))
  {
    hide No;
    HalvedQuotient(27000 * m, i + 2);
    DivDiv(27000 * m, i + 2, No(o));
  }

  lemma SmallDivisor(i: nat, o: nat)
    requires i < 12 && o < 4
    ensures 0 < (i + 2) * No(o) <= 52
  {
    NoValues(o);
    hide No;
    MulBound(i + 2, 13, No(o), 4);
  }

  lemma OnlyFeedback(x: nat, nd: nat, m: nat)
    requires 0 < nd <= 52 && x * nd <= 27000 * m < (x + 1) * nd
    ensures Feedback27(x, nd) == m
  {
    assert (x + 1) * nd == x * nd + nd;
    DivUnique(x * nd + 26999, 27000, m);
  }

  lemma HitFits(x: Word, o: nat, i: nat, f: nat)
    requires Hit(27000, x, o, i, f)
    ensures i < 12 && o < 4 && Fits27(x, i, o)
  {
    AcceptedIsExact(27000, x, o, i, f);
    HitRange(27000, x, o, i, f);
    InDividers27(i);
    var m, nd := f + 2, (i + 2) * No(o);
    SmallDivisor(i, o);
    OneDivision(i, m, o);
    assert Nf(f) == 2 * m;
    hide Hit, No, Nf, Nr;
    DivBounds(27000 * m, nd);
    OnlyFeedback(x, nd, m);
    hide Feedback27;
  }

  lemma FitsHit(x: Word, i: nat, o: nat)
    requires i < 12 && o < 4 && Fits27(x, i, o)
    ensures Attainable(27000, x)
  {
    var nd := (i + 2) * No(o);
    var m := Feedback27(x, nd);
    SmallDivisor(i, o);
    OneDivision(i, m, o);
    AtLeastX(x, nd);
    assert Nf(m - 2) == 2 * m;
    InputInRange27(i);
    hide No, Nr, Nf, Feedback27;
    DivUnique(27000 * m, nd, x);
    Accepted27(x, o, i, m);
  }

  lemma AtLeastX(x: nat, nd: nat)
    ensures x * nd <= 27000 * Feedback27(x, nd)
  {
  }

  lemma InputInRange27(i: nat)
    requires i < 12
    ensures 1000 <= 27000 / Nr(i) <= 15000
  {
    QuotientAtLeast(27000, Nr(i), 1000);
    QuotientAtMost(27000, Nr(i), 15000);
  }

  lemma Accepted27(x: Word, o: nat, i: nat, m: nat)
    requires i < 12 && o < 4 && 2 <= m < 514 && Nf(m - 2) == 2 * m && x == 27000 * (2 * m) / Nr(i) / No(o)
    requires 1000 <= 27000 / Nr(i) <= 15000 && 100000 <= 27000 / Nr(i) * (2 * m) <= 500000
    ensures Attainable(27000, x)
  {
    assert Nr(i) > 0;
    hide No, Nr, Nf;
    WrapSmall(27000 * (2 * m));
    WrapSmall(27000 / Nr(i) * (2 * m));
    hide Wrap;
    assert Passes(27000, i, m - 2);
    hide Passes;
    assert Hit(27000, x, o, i, m - 2);
  }

  /** A test on the target alone: one of its rounds above zero is on the grid. Only rounds between 25071 and
      500500 kHz can be (Grid27Range), so at most 119 of them have to be looked at. */
  ghost predicate Met27(target: nat) {
    exists j: nat :: STEP * j <= target && Grid27(target - STEP * j)
  }

  lemma Grid27Range(x: Word)
    requires Grid27(x)
    ensures 25071 <= x <= 500500
  {
    hide Hit, Grid27;
    AttainableExactly27(x);
    var o, i, f :| Hit(27000, x, o, i, f);
    AtLeast25071(x, o, i, f);
    AtMost500500(x, o, i, f);
  }

  lemma AtMost500500(x: Word, o: nat, i: nat, f: nat)
    requires Hit(27000, x, o, i, f)
    ensures x <= 500500
  {
    AcceptedIsExact(27000, x, o, i, f);
    HitRange(27000, x, o, i, f);
    NoValues(o);
    var y := 27000 * Nf(f) / Nr(i);
    UndividedBound(Nr(i), Nf(f), 27000 / Nr(i));
    hide Hit, No, Nr, Nf;
    DivAnti(y, 1, No(o));
  }

  lemma UndividedBound(nr: nat, nf: nat, q: nat)
    requires nr > 0 && q == 27000 / nr && 1000 <= q && q * nf <= 500000
    ensures 27000 * nf / nr <= 500500
  {
    MulMono(q, 1000, nf);
    DivBounds(27000, nr);
    MulMono((q + 1) * nr, 27000, nf);
    Regroup(q, nr, nf);
    MulMono(500500, q * nf + nf, nr);
    QuotientAtMost(27000 * nf, nr, 500500);
  }

  lemma Regroup(q: nat, nr: nat, nf: nat)
    ensures (q + 1) * nr * nf == (q * nf + nf) * nr
  {
    assert (q + 1) * nf == q * nf + nf;
    assert (q + 1) * nr * nf == (q + 1) * nf * nr;
  }

  /** With the 27 MHz crystal the search ends without running below zero exactly for these targets. */
  lemma NoWrapExactly27(target: Word, reg: Word, k: nat)
    requires Found(27000, target, reg, k)
    ensures STEP * k <= target <==> Met27(target)
    ensures Met27(target) ==> OutputOf(reg, 27000) == target - STEP * k
  {
    hide Found, Attainable, OutputOf, Grid27;
    NoWrap(27000, target, reg, k);
    if STEP * k <= target {
      FoundRegister(27000, target, reg, k);
      WrapSmall(target - STEP * k);
      AttainableExactly27(target - STEP * k);
    }
    if j: nat :| STEP * j <= target && Grid27(target - STEP * j) {
      WrapSmall(target - STEP * j);
      AttainableExactly27(target - STEP * j);
      assert Attainable(27000, Round(target, j));
    }
  }

  // ---- The 27 MHz crystal: where the other targets end up ----

  /** The first grid frequency among y, y - 4000, ...; 0 if there is none. */
  function Down27(y: nat): (x: nat)
    ensures x <= y && (x > 0 ==> Grid27(x))
  {
    if Grid27(y) then y else if y < STEP then 0 else Down27(y - STEP)
  }

  /** The largest grid frequency with residue r modulo 4000; 0 if there is none. No more than 127 frequencies
      have to be tested. */
  function Top27(r: nat): nat {
    Down27(r + 504000)
  }

  lemma {:induction false} DownIsLargest(y: nat, x: nat)
    requires y < TWO32 && Grid27(x) && x <= y && x % STEP == y % STEP
    ensures x <= Down27(y)
    decreases y
  {
    hide Grid27;
    if !Grid27(y) {
      NextBelow(x, y);
      DownIsLargest(y - STEP, x);
    }
  }

  lemma NextBelow(x: nat, y: nat)
    requires x < y && x % STEP == y % STEP
    ensures y >= STEP && x <= y - STEP && (y - STEP) % STEP == x % STEP
  {
    var a, b := x / STEP, y / STEP;
    assert x == STEP * a + x % STEP && y == STEP * b + x % STEP;
    QuotRem(y - STEP, STEP, b - 1, x % STEP);
  }

  lemma {:induction false} DownResidue(y: nat)
    ensures Down27(y) > 0 ==> Down27(y) % STEP == y % STEP
    decreases y
  {
    hide Grid27;
    if !Grid27(y) && y >= STEP {
      DownResidue(y - STEP);
      QuotRem(y - STEP, STEP, y / STEP - 1, y % STEP);
    }
  }

  lemma TopIsLargest27(x: Word)
    requires Grid27(x)
    ensures x <= Top27(x % STEP)
  {
    hide Grid27, Down27;
    Grid27Range(x);
    QuotRem(x % STEP + 504000, STEP, 126, x % STEP);
    DownIsLargest(x % STEP + 504000, x);
  }

  lemma TopAttained27(r: nat)
    requires r < STEP && Top27(r) > 0
    ensures Top27(r) < TWO32 && Attainable(27000, Top27(r)) && Top27(r) % STEP == r && Top27(r) <= 500500
  {
    hide Grid27, Attainable, Down27;
    QuotRem(r + 504000, STEP, 126, r);
    DownResidue(r + 504000);
    AttainableExactly27(Top27(r));
    Grid27Range(Top27(r));
  }

  /** The first pass from p on that holds attainable frequencies; the residues repeat after 125 passes. */
  function FirstPass27(target: nat, p: nat): nat
    decreases 125 - p
  {
    if p >= 125 || Top27(Pass(target, p)) > 0 then p else FirstPass27(target, p + 1)
  }

  /** Where a search ends that has run below zero, computed from the target alone. */
  function Wrapped27(target: nat): nat {
    Top27(Pass(target, FirstPass27(target, 1)))
  }

  lemma {:induction false} FirstPassIs27(target: nat, s: nat, p: nat)
    requires s <= p <= 125 && Top27(Pass(target, p)) > 0
    requires forall q: nat | s <= q < p :: Top27(Pass(target, q)) == 0
    ensures FirstPass27(target, s) == p
    decreases p - s
  {
    hide Top27, Pass;
    if s < p { FirstPassIs27(target, s + 1, p); }
  }

  /** 125 * 3296 = 103 * 4000. */
  lemma PassesRepeat(target: nat, p: nat)
    requires p >= 125
    ensures Pass(target, p - 125) == Pass(target, p)
  {
    var x := target + 3296 * (p - 125);
    assert target + 3296 * p == x + 103 * STEP;
    QuotRem(target + 3296 * p, STEP, x / STEP + 103, x % STEP);
  }

  /** A 27 MHz target that is not met from below is set to Wrapped27. */
  lemma WrappedExactly27(target: Word, reg: Word, k: nat)
    requires Found(27000, target, reg, k) && !Met27(target)
    ensures OutputOf(reg, 27000) == Wrapped27(target) <= 500500
  {
    hide Found, Met27, Attainable, OutputOf, Top27, Grid27, Pass;
    NoWrapExactly27(target, reg, k);
    var p := WrappedSearch(27000, target, reg, k);
    var x := Round(target, k);
    hide Round;
    AttainableExactly27(x);
    Grid27Range(x);
    TopIsLargest27(x);
    forall q: nat | 1 <= q < p ensures Top27(Pass(target, q)) == 0 {
      if Top27(Pass(target, q)) > 0 { TopOfPass27(target, q); }
    }
    if p > 125 { PassesRepeat(target, p); }
    assert p <= 125;
    FirstPassIs27(target, 1, p);
    TopOfPass27(target, p);
  }

  lemma TopOfPass27(target: nat, q: nat)
    requires Top27(Pass(target, q)) > 0
    ensures var y := Top27(Pass(target, q));
            y <= 500500 && Attainable(27000, y) && y % STEP == Pass(target, q)
  {
    hide Top27, Attainable;
    TopAttained27(Pass(target, q));
  }

  /** The promise of the comment with the 27 MHz crystal, exactly. */
  lemma NotOverExactly27(target: Word, reg: Word, k: nat)
    requires Found(27000, target, reg, k)
    ensures OutputOf(reg, 27000) <= target <==> Met27(target) || Wrapped27(target) <= target
    ensures target >= 500500 ==> OutputOf(reg, 27000) <= target
  {
    hide Found, Met27, OutputOf, Wrapped27;
    NoWrapExactly27(target, reg, k);
    if !Met27(target) { WrappedExactly27(target, reg, k); }
  }

  /** For example, 28.204 MHz is not met from below, and the PLL is set to 499.5 MHz. */
  lemma Overshoots28204(reg: Word, k: nat)
    requires Found(27000, 28204, reg, k)
    ensures STEP * k > 28204 && OutputOf(reg, 27000) == 499500
  {
    hide Found, OutputOf, Wrapped27, Met27;
    NotMet28204();
    Wrapped28204();
    NoWrapExactly27(28204, reg, k);
    WrappedExactly27(28204, reg, k);
  }

  lemma NotMet28204()
    ensures !Met27(28204)
  {
    hide Grid27;
    forall j: nat | STEP * j <= 28204 ensures !Grid27(28204 - STEP * j) {
      if Grid27(28204 - STEP * j) {
        Grid27Range(28204 - STEP * j);
        assert j == 0;
        NotAttained28204();
        AttainableExactly27(28204);
      }
    }
  }

  lemma NotAttained28204()
    ensures !Attainable(27000, 28204)
  {
    hide Hit;
    if o: nat, i: nat, f: nat :| Hit(27000, 28204, o, i, f) {
      var y := UndividedHit(28204, o, i, f);
      Between112816(i + 2, f + 2, y);
    }
  }

  lemma Between112816(n: nat, m: nat, y: nat)
    requires 2 <= n <= 13 && y * (2 * n) <= 27000 * (2 * m) < (y + 1) * (2 * n)
    ensures !(112816 <= y < 112820)
  {
    assert n == 2 || n == 3 || n == 4 || n == 5 || n == 6 || n == 7 || n == 8 || n == 9 ||
      n == 10 || n == 11 || n == 12 || n == 13;
  }

  lemma Wrapped28204()
    ensures Wrapped27(28204) == 499500
  {
    hide Grid27;
    assert Pass(28204, 1) == 3500;
    Attain499500();
    AttainableExactly27(499500);
    OffGrid(503500);
    OffGrid(507500);
    assert Down27(499500) == 499500;
    assert Down27(503500) == 499500;
    assert Down27(507500) == 499500;
  }

  lemma OffGrid(x: Word)
    requires x > 500500
    ensures !Grid27(x)
  {
    if Grid27(x) { Grid27Range(x); }
  }

  /** NR = 20, NO = 1, FB_DV + 2 = 185: 499.5 MHz. */
  lemma Attain499500()
    ensures Attainable(27000, 499500)
  {
    assert Nr(8) == 20 && Nf(183) == 370;
    assert Hit(27000, 499500, 0, 8, 183);
  }
}

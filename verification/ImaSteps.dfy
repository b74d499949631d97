// The law behind the step table of main/ima_adpcm.c, and where each nibble and each
// error send the step index.

module ImaSteps {
  import opened ImaAdpcm

  function Pow(base: nat, k: nat): nat {
    if k == 0 then 1 else base * Pow(base, k - 1)
  }

  lemma {:induction false} PowAdds(base: nat, k: nat, j: nat)
    ensures Pow(base, k + j) == Pow(base, k) * Pow(base, j)
  {
    if j > 0 {
      PowAdds(base, k, j - 1);
      assert base * (Pow(base, k) * Pow(base, j - 1)) == Pow(base, k) * (base * Pow(base, j - 1));
    }
  }

  lemma {:induction false} PowIsPositive(base: nat, k: nat)
    requires base > 0
    ensures Pow(base, k) > 0
  {
    if k > 0 { PowIsPositive(base, k - 1); }
  }

  const ELEVENS: seq<nat> := [
    1, 11, 121, 1331, 14641, 161051, 1771561, 19487171, 214358881, 2357947691,
    25937424601, 285311670611, 3138428376721, 34522712143931, 379749833583241, 4177248169415651]
  const TENS: seq<nat> := [
    1, 10, 100, 1000, 10000, 100000, 1000000, 10000000, 100000000, 1000000000,
    10000000000, 100000000000, 1000000000000, 10000000000000, 100000000000000, 1000000000000000]

  lemma {:induction false} SmallPowers(j: nat)
    requires j < 16
    ensures |ELEVENS| == |TENS| == 16 && Pow(11, j) == ELEVENS[j] && Pow(10, j) == TENS[j]
  {
    if j > 0 { SmallPowers(j - 1); }
  }

  /** x is the whole part of num / den. */
  predicate WholePart(x: int, num: int, den: int) {
    x * den <= num < (x + 1) * den
  }

  const SCALE := 1000000000

  /** n / d, a thousand million times, lies between lo and hi. */
  predicate Near(n: nat, d: nat, lo: nat, hi: nat) {
    lo * d <= SCALE * n <= hi * d && d > 0
  }

  /** The j-th number is the whole part of 1.1^j times anything between those bounds. */
  predicate RowFits(row: seq<int>, lo: nat, hi: nat) {
    && |row| <= |ELEVENS| == |TENS|
    && forall j :: 0 <= j < |row| ==>
         SCALE * row[j] * TENS[j] <= ELEVENS[j] * lo && ELEVENS[j] * hi < SCALE * (row[j] + 1) * TENS[j]
  }

  lemma ScalesUp(e: nat, t: nat, n: nat, d: nat, lo: nat, hi: nat)
    requires Near(n, d, lo, hi)
    ensures (e * lo) * d <= SCALE * (e * n) <= (e * hi) * d
  {
    assert (e * lo) * d == e * (lo * d) && (e * hi) * d == e * (hi * d) && SCALE * (e * n) == e * (SCALE * n);
    MulMonotone(e, lo * d, SCALE * n);
    MulMonotone(e, SCALE * n, hi * d);
  }

  lemma MulMonotone(e: nat, a: int, b: int)
    requires a <= b
    ensures e * a <= e * b
  {
    assert e * b - e * a == e * (b - a);
  }

  lemma FitsRow(row: seq<int>, j: nat, n: nat, d: nat, lo: nat, hi: nat)
    requires Near(n, d, lo, hi) && RowFits(row, lo, hi) && j < |row|
    ensures WholePart(row[j], ELEVENS[j] * n, TENS[j] * d)
  {
    var e, t, x := ELEVENS[j], TENS[j], row[j];
    hide RowFits, ELEVENS, TENS;
    assert SCALE * x * t <= e * lo && e * hi < SCALE * (x + 1) * t;
    ScalesUp(e, t, n, d, lo, hi);
    hide Near;
    MulMonotone(d, SCALE * x * t, e * lo);
    MulMonotone(d, e * hi + 1, SCALE * (x + 1) * t);
    Shuffle(x, t, d);
    Shuffle(x + 1, t, d);
    assert d * (e * lo) == (e * lo) * d && d * (e * hi + 1) == (e * hi) * d + d;
  }

  lemma Shuffle(x: int, t: nat, d: nat)
    ensures d * (SCALE * x * t) == SCALE * (x * (t * d))
  {
    assert d * (SCALE * (x * t)) == SCALE * (d * (x * t));
    assert d * (x * t) == x * (t * d);
  }

  lemma QuotientIs(x: nat, num: nat, den: nat)
    requires WholePart(x, num, den) && den > 0
    ensures num / den == x
  {
    var q := num / den;
    assert q * den <= num < (q + 1) * den by { assert num == q * den + num % den; }
    if q < x { MulMonotone(den, q + 1, x); }
    if x < q { MulMonotone(den, x + 1, q); }
  }

  lemma PowersScale(k: nat, j: nat)
    requires j < |ELEVENS| == |TENS| == 16
    ensures ELEVENS[j] * (16 * Pow(11, k)) == 16 * Pow(11, k + j)
    ensures TENS[j] * Pow(10, k) == Pow(10, k + j) > 0
  {
    SmallPowers(j);
    PowAdds(11, k, j);
    PowAdds(10, k, j);
    PowIsPositive(10, k + j);
    hide Pow, ELEVENS, TENS;
    Sixteen(ELEVENS[j], Pow(11, k));
  }

  lemma Sixteen(a: nat, b: nat)
    ensures a * (16 * b) == 16 * (b * a)
  {
  }

  /** An entry of a row that starts at the k-th power. */
  lemma EntryIs(row: seq<int>, k: nat, j: nat, lo: nat, hi: nat)
    requires Near(16 * Pow(11, k), Pow(10, k), lo, hi) && RowFits(row, lo, hi) && j < |row| && row[j] >= 0
    ensures Pow(10, k + j) > 0 && row[j] == 16 * Pow(11, k + j) / Pow(10, k + j)
  {
    assert |ELEVENS| == 16;
    FitsRow(row, j, 16 * Pow(11, k), Pow(10, k), lo, hi);
    PowersScale(k, j);
    hide Pow, ELEVENS, TENS, WholePart, RowFits, Near;
    QuotientIs(row[j], 16 * Pow(11, k + j), Pow(10, k + j));
  }

  lemma NearScales(e: nat, t: nat, n: nat, d: nat, lo: nat, hi: nat, lo': nat, hi': nat)
    requires Near(n, d, lo, hi) && t * lo' <= e * lo && e * hi <= t * hi' && t * d > 0
    ensures Near(e * n, t * d, lo', hi')
  {
    ScalesUp(e, t, n, d, lo, hi);
    MulMonotone(d, t * lo', e * lo);
    MulMonotone(d, e * hi, t * hi');
    Turn(d, t, lo');
    Turn(d, t, hi');
  }

  lemma Turn(d: nat, t: nat, x: nat)
    ensures d * (t * x) == x * (t * d)
  {
  }

  /** m steps further on. */
  lemma NearFurtherOn(k: nat, m: nat, lo: nat, hi: nat, lo': nat, hi': nat)
    requires Near(16 * Pow(11, k), Pow(10, k), lo, hi) && m < |ELEVENS| == |TENS| == 16
    requires TENS[m] * lo' <= ELEVENS[m] * lo && ELEVENS[m] * hi <= TENS[m] * hi'
    ensures Near(16 * Pow(11, k + m), Pow(10, k + m), lo', hi')
  {
    PowersScale(k, m);
    hide Pow, ELEVENS, TENS, Near;
    NearScales(ELEVENS[m], TENS[m], 16 * Pow(11, k), Pow(10, k), lo, hi, lo', hi');
  }

  lemma Row0Fits()
    ensures |ROW_0| == 15 && RowFits(ROW_0[8..], 16000000000, 16000000000)
  {
    forall j | 0 <= j < 7 ensures ROW_0[8..][j] == ROW_0[8 + j] {}
  }

  lemma Row1Fits()
    ensures |ROW_1| == 15 && RowFits(ROW_1, 31179473600, 31179473600)
  {
  }

  lemma Row2Fits()
    ensures |ROW_2| == 15 && RowFits(ROW_2, 130244399018, 130244399019)
  {
  }

  lemma Row3Fits()
    ensures |ROW_3| == 15 && RowFits(ROW_3, 544063177374, 544063177379)
  {
  }

  lemma Row4Fits()
    ensures |ROW_4| == 15 && RowFits(ROW_4, 2272686911732, 2272686911753)
  {
  }

  lemma Row5Fits()
    ensures |ROW_5| == 14 && RowFits(ROW_5[..13], 9493577241687, 9493577241776)
  {
    forall j | 0 <= j < 13 ensures ROW_5[..13][j] == ROW_5[j] {}
  }

  lemma Row0Starts()
    ensures Near(16 * Pow(11, 0), Pow(10, 0), 16000000000, 16000000000)
  {
    assert Pow(11, 0) == 1 && Pow(10, 0) == 1;
  }

  lemma Row1Starts()
    ensures Near(16 * Pow(11, 7), Pow(10, 7), 31179473600, 31179473600)
  {
    Row0Starts();
    NearFurtherOn(0, 7, 16000000000, 16000000000, 31179473600, 31179473600);
  }

  lemma Row2Starts()
    ensures Near(16 * Pow(11, 22), Pow(10, 22), 130244399018, 130244399019)
  {
    Row1Starts();
    NearFurtherOn(7, 15, 31179473600, 31179473600, 130244399018, 130244399019);
  }

  lemma Row3Starts()
    ensures Near(16 * Pow(11, 37), Pow(10, 37), 544063177374, 544063177379)
  {
    Row2Starts();
    NearFurtherOn(22, 15, 130244399018, 130244399019, 544063177374, 544063177379);
  }

  lemma Row4Starts()
    ensures Near(16 * Pow(11, 52), Pow(10, 52), 2272686911732, 2272686911753)
  {
    Row3Starts();
    NearFurtherOn(37, 15, 544063177374, 544063177379, 2272686911732, 2272686911753);
  }

  lemma Row5Starts()
    ensures Near(16 * Pow(11, 67), Pow(10, 67), 9493577241687, 9493577241776)
  {
    Row4Starts();
    NearFurtherOn(52, 15, 2272686911732, 2272686911753, 9493577241687, 9493577241776);
  }

  predicate IsEntry(x: int, k: nat) {
    Pow(10, k) > 0 && x == 16 * Pow(11, k) / Pow(10, k)
  }

  lemma Row0Entries(j: nat)
    requires 8 <= j < 15
    ensures |ROW_0| == 15 && IsEntry(ROW_0[j], j - 8)
  {
    Row0Fits();
    Row0Starts();
    EntryIs(ROW_0[8..], 0, j - 8, 16000000000, 16000000000);
    hide Pow, RowFits, Near;
  }

  lemma Row1Entries(j: nat)
    requires j < 15
    ensures |ROW_1| == 15 && IsEntry(ROW_1[j], 7 + j)
  {
    Row1Fits();
    Row1Starts();
    EntryIs(ROW_1, 7, j, 31179473600, 31179473600);
    hide Pow, RowFits, Near;
  }

  lemma Row2Entries(j: nat)
    requires j < 15
    ensures |ROW_2| == 15 && IsEntry(ROW_2[j], 22 + j)
  {
    Row2Fits();
    Row2Starts();
    EntryIs(ROW_2, 22, j, 130244399018, 130244399019);
    hide Pow, RowFits, Near;
  }

  lemma Row3Entries(j: nat)
    requires j < 15
    ensures |ROW_3| == 15 && IsEntry(ROW_3[j], 37 + j)
  {
    Row3Fits();
    Row3Starts();
    EntryIs(ROW_3, 37, j, 544063177374, 544063177379);
    hide Pow, RowFits, Near;
  }

  lemma Row4Entries(j: nat)
    requires j < 15
    ensures |ROW_4| == 15 && IsEntry(ROW_4[j], 52 + j)
  {
    Row4Fits();
    Row4Starts();
    EntryIs(ROW_4, 52, j, 2272686911732, 2272686911753);
    hide Pow, RowFits, Near;
  }

  lemma Row5Entries(j: nat)
    requires j < 13
    ensures |ROW_5| == 14 && IsEntry(ROW_5[j], 67 + j)
  {
    Row5Fits();
    Row5Starts();
    EntryIs(ROW_5[..13], 67, j, 9493577241687, 9493577241776);
    hide Pow, RowFits, Near;
  }

  /** The row an entry is in. */
  lemma StepInRow(i: Index)
    ensures |Row(i / 15)| == if i < 75 then 15 else 14
    ensures StepOf(i) == Row(i / 15)[i % 15]
  {
    RowLengths();
    hide ROW_0, ROW_1, ROW_2, ROW_3, ROW_4, ROW_5;
    assert STEP_TABLE[i] == Row(i / 15)[i % 15];
  }

  lemma RowLengths()
    ensures |ROW_0| == |ROW_1| == |ROW_2| == |ROW_3| == |ROW_4| == 15 && |ROW_5| == 14
  {
  }

  function Row(r: int): seq<int> {
    match r
    case 0 => ROW_0
    case 1 => ROW_1
    case 2 => ROW_2
    case 3 => ROW_3
    case 4 => ROW_4
    case _ => ROW_5
  }

  lemma StepsGrowByATenth(i: Index)
    requires 8 <= i < 88
    ensures IsEntry(StepOf(i), i - 8)
  {
    StepInRow(i);
    hide StepOf, IsEntry, ROW_0, ROW_1, ROW_2, ROW_3, ROW_4, ROW_5;
    if i < 15 { Row0Entries(i); }
    else if i < 30 { Row1Entries(i - 15); }
    else if i < 45 { Row2Entries(i - 30); }
    else if i < 60 { Row3Entries(i - 45); }
    else if i < 75 { Row4Entries(i - 60); }
    else { Row5Entries(i - 75); }
  }

  /** The step table: 7 to 14 one by one, then 16 growing by a tenth each time, whole
      parts taken, and at the end the largest sample. */
  lemma StepLaw(i: Index)
    ensures i < 8 ==> StepOf(i) == 7 + i
    ensures 8 <= i < 88 ==> Pow(10, i - 8) > 0 && StepOf(i) == 16 * Pow(11, i - 8) / Pow(10, i - 8)
    ensures i == 88 ==> StepOf(i) == 32767
  {
    StepInRow(i);
    if 8 <= i < 88 { StepsGrowByATenth(i); }
    hide STEP_TABLE, StepOf, Pow;
  }

  /** Where a nibble sends the step index: down by one without its weight of 4, and with it up by
      two, and by its other weights more; never off the table. */
  lemma IndexAfterNibble(st: State, n: Nibble)
    ensures Decode(st, n).index ==
              if !n.b4 then (if st.index == 0 then 0 else st.index - 1)
              else
                var up := st.index + 2 + (if n.b2 then 4 else 0) + (if n.b1 then 2 else 0);
                if up > 88 then 88 else up
  {
  }

  /** The same read off the error of the predictor, in quarters of the step. */
  lemma IndexAfterSample(st: State, sample: Int16)
    ensures var error, step, i := st.Error(sample), st.Step(), st.index;
            var up := if error < step + step / 4 then 2
                      else if error < step + step / 2 then 4
                      else if error < step + step / 2 + step / 4 then 6
                      else 8;
            Encode(st, sample).index == if error < step then (if i == 0 then 0 else i - 1)
                                        else if i + up > 88 then 88 else i + up
  {
    IndexAfterNibble(st, NibbleFor(st, sample));
    hide STEP_TABLE, INDEX_TABLE;
  }
}

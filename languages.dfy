/** The byte-frequency model of `rust/src/languages.rs`: a 256-bucket
    histogram with a running total, the comparison of two histograms, and
    the built-in English table. */
module Languages {
  import opened Prelude

  /** A `[u32; 256]` table: one bucket per byte value. */
  type Histogram = h: seq<u32> | |h| == 256 witness seq(256, _ => 0 as u32)

  /** `struct Frequencies`: bucket counts and the number of bytes counted. */
  datatype Frequencies = Frequencies(histogram: Histogram, total: u64)

  // Counting

  /** The number of bytes of value `x` in `bytes`, the value taken as an
      index `0..255` as `b as usize` does. */
  function Count(bytes: seq<byte>, x: int): nat
  {
    if bytes == [] then 0 else (if bytes[0] as int == x then 1 else 0) + Count(bytes[1..], x)
  }

  lemma {:induction false} CountAppend(a: seq<byte>, b: seq<byte>, x: int)
    ensures Count(a + b, x) == Count(a, x) + Count(b, x)
  {
    if a == [] {
      assert a + b == b;
    } else {
      assert (a + b)[1..] == a[1..] + b;
      CountAppend(a[1..], b, x);
    }
  }

  /** The `u32` buckets and the `u64` total can hold the counts of `bytes`;
      otherwise the increments in `from_bytes` overflow. */
  ghost predicate Countable(bytes: seq<byte>)
  {
    |bytes| <= U64_MAX && forall x :: 0 <= x < 256 ==> Count(bytes, x) <= U32_MAX
  }

  /** The frequencies of `bytes`: each bucket holds the number of
      occurrences of its byte value, and the total is the length. */
  function HistogramOf(bytes: seq<byte>): Frequencies
    requires Countable(bytes)
  {
    Frequencies(seq(256, v requires 0 <= v < 256 => Count(bytes, v) as u32), |bytes| as u64)
  }

  /** `Frequencies::from_bytes`: one pass over the input, incrementing the
      bucket of each byte in a local array and the running total. */
  method FromBytes(bytes: seq<byte>) returns (f: Frequencies)
    requires Countable(bytes)
    ensures forall v :: 0 <= v < 256 ==> f.histogram[v] as int == Count(bytes, v)
    ensures f.total as int == |bytes|
    ensures f == HistogramOf(bytes)
  {
    var histogram := new u32[256](_ => 0);
    var total: u64 := 0;
    assert histogram[..] == HistogramOf([]).histogram;
    for i := 0 to |bytes|
      invariant total as int == i
      invariant Countable(bytes[..i])
      invariant histogram[..] == HistogramOf(bytes[..i]).histogram
    {
      var b := bytes[i];
      assert bytes[..i + 1] == bytes[..i] + [b];
      CountablePrefix(bytes, i + 1);
      HistogramSnoc(bytes[..i], b);
      histogram[b as int] := histogram[b as int] + 1;
      total := total + 1;
    }
    assert bytes[..|bytes|] == bytes;
    f := Frequencies(histogram[..], total);
  }

  /** A prefix of a countable input is countable. */
  lemma CountablePrefix(bytes: seq<byte>, n: nat)
    requires Countable(bytes) && n <= |bytes|
    ensures Countable(bytes[..n])
  {
    assert bytes == bytes[..n] + bytes[n..];
    forall x | 0 <= x < 256
      ensures Count(bytes[..n], x) <= Count(bytes, x)
    {
      CountAppend(bytes[..n], bytes[n..], x);
    }
  }

  /** The sum of a sequence of buckets. */
  function Sum(h: seq<u32>): int
  {
    if h == [] then 0 else h[0] as int + Sum(h[1..])
  }

  lemma {:induction false} SumAppend(a: seq<u32>, b: seq<u32>)
    ensures Sum(a + b) == Sum(a) + Sum(b)
  {
    if a != [] {
      assert (a + b)[1..] == a[1..] + b;
      SumAppend(a[1..], b);
    } else {
      assert a + b == b;
    }
  }

  lemma {:induction false} SumUpdate(h: seq<u32>, i: nat, x: u32)
    requires i < |h|
    ensures Sum(h[i := x]) == Sum(h) - h[i] as int + x as int
  {
    if i > 0 {
      assert h[i := x][1..] == h[1..][i - 1 := x];
      SumUpdate(h[1..], i - 1, x);
    } else {
      assert h[i := x][1..] == h[1..];
    }
  }

  lemma {:induction false} SumZero(h: seq<u32>)
    requires forall k :: 0 <= k < |h| ==> h[k] == 0
    ensures Sum(h) == 0
  {
    if h != [] {
      SumZero(h[1..]);
    }
  }

  /** Each bucket is at most the sum. */
  lemma {:induction false} SumBound(h: seq<u32>, k: nat)
    requires k < |h|
    ensures h[k] as int <= Sum(h)
  {
    if k > 0 {
      SumBound(h[1..], k - 1);
    } else if |h| > 1 {
      SumNonNegative(h[1..]);
    }
  }

  lemma {:induction false} SumNonNegative(h: seq<u32>)
    ensures Sum(h) >= 0
  {
    if h != [] {
      SumNonNegative(h[1..]);
    }
  }

  /** The input is empty exactly when every bucket is zero and so is the
      total. */
  lemma EmptyHistogram(bytes: seq<byte>)
    requires Countable(bytes)
    ensures HistogramOf(bytes).total == 0 <==> bytes == []
    ensures bytes == [] ==> forall v :: 0 <= v < 256 ==> HistogramOf(bytes).histogram[v] == 0
  {
  }

  /** One more byte adds one occurrence of itself and none of any other. */
  lemma CountSnoc(p: seq<byte>, x: byte, y: int)
    ensures Count(p + [x], y) == Count(p, y) + (if y == x as int then 1 else 0)
  {
    CountAppend(p, [x], y);
    assert [x][1..] == [];
  }

  /** If the input with one more byte is countable, the input is, and the
      bucket of that byte has room for one more. */
  lemma CountableSnoc(p: seq<byte>, x: byte)
    requires Countable(p + [x])
    ensures Countable(p)
    ensures Count(p, x as int) < U32_MAX
  {
    forall y | 0 <= y < 256
      ensures Count(p, y) <= Count(p + [x], y)
    {
      CountSnoc(p, x, y);
    }
    CountSnoc(p, x, x as int);
  }

  /** The bucket of `v` after one more byte `x`. */
  lemma HistogramSnocAt(p: seq<byte>, x: byte, v: int)
    requires Countable(p + [x]) && Countable(p) && 0 <= v < 256
    ensures HistogramOf(p + [x]).histogram[v] as int
         == HistogramOf(p).histogram[v] as int + (if v == x as int then 1 else 0)
  {
    CountSnoc(p, x, v);
  }

  /** Appending a byte increments its bucket and nothing else. */
  lemma HistogramSnoc(p: seq<byte>, x: byte)
    requires Countable(p + [x])
    ensures Countable(p)
    ensures HistogramOf(p).histogram[x as int] as int < U32_MAX
    ensures HistogramOf(p + [x]).histogram
         == HistogramOf(p).histogram[x as int := HistogramOf(p).histogram[x as int] + 1]
  {
    CountableSnoc(p, x);
    var h := HistogramOf(p).histogram;
    var h' := h[x as int := h[x as int] + 1];
    forall v | 0 <= v < 256
      ensures HistogramOf(p + [x]).histogram[v] == h'[v]
    {
      HistogramSnocAt(p, x, v);
    }
  }

  /** The total is the sum of the buckets. */
  lemma {:induction false} HistogramSum(bytes: seq<byte>)
    requires Countable(bytes)
    ensures Sum(HistogramOf(bytes).histogram) == HistogramOf(bytes).total as int
    decreases |bytes|
  {
    if bytes == [] {
      SumZero(HistogramOf(bytes).histogram);
    } else {
      var p, x := bytes[..|bytes| - 1], bytes[|bytes| - 1];
      assert bytes == p + [x];
      HistogramSnoc(p, x);
      HistogramSum(p);
      var h := HistogramOf(p).histogram;
      SumUpdate(h, x as int, h[x as int] + 1);
    }
  }

  // Comparison

  /** The `u64` products `compare` forms stay in range; otherwise the
      multiplications overflow. */
  predicate ProductsFit(f: Frequencies, g: Frequencies)
  {
    && f.total as int * g.total as int <= U64_MAX
    && forall v :: 0 <= v < 256 ==>
         && g.total as int * f.histogram[v] as int <= U64_MAX
         && f.total as int * g.histogram[v] as int <= U64_MAX
  }

  function Abs(x: int): nat
  {
    if x < 0 then -x else x
  }

  /** `std::cmp::max`: the larger operand, the second one on a tie. */
  function Max(x: u64, y: u64): (r: u64)
    ensures r >= x && r >= y
    ensures r == x || r == y
  {
    if y >= x then y else x
  }

  /** `std::cmp::min`: the smaller operand, the first one on a tie. */
  function Min(x: u64, y: u64): (r: u64)
    ensures r <= x && r <= y
    ensures r == x || r == y
  {
    if y >= x then x else y
  }

  /** The integer numerators of `compare`: bucket `v` of one histogram is
      scaled by the other total, and the term is the distance between the
      two scaled counts; the subtraction never underflows. */
  function Terms(f: Frequencies, g: Frequencies): (r: seq<u64>)
    requires ProductsFit(f, g)
    ensures |r| == 256
    ensures forall v :: 0 <= v < 256 ==>
      r[v] as int == Abs(g.total as int * f.histogram[v] as int - f.total as int * g.histogram[v] as int)
  {
    seq(256, v requires 0 <= v < 256 =>
      var x := g.total * f.histogram[v] as u64;
      var y := f.total * g.histogram[v] as u64;
      Max(x, y) - Min(x, y))
  }

  /** The denominator of `compare`: zero exactly when either side counted
      nothing, the empty-input hazard. */
  function Denominator(f: Frequencies, g: Frequencies): (r: u64)
    requires ProductsFit(f, g)
    ensures r == 0 <==> f.total == 0 || g.total == 0
  {
    f.total * g.total
  }

  /** The left fold `fold(0.0, |acc, x| acc + x)`. */
  function RealSum(xs: seq<real>): (r: real)
    ensures (forall k :: 0 <= k < |xs| ==> xs[k] >= 0.0) ==> r >= 0.0
    ensures (forall k :: 0 <= k < |xs| ==> xs[k] >= 0.0) ==> forall k :: 0 <= k < |xs| ==> xs[k] <= r
  {
    if xs == [] then 0.0 else RealSum(xs[..|xs| - 1]) + xs[|xs| - 1]
  }

  /** `.map(|diff| diff as f32 / (sum_x * sum_y) as f32)` over exact reals. */
  function Quotients(terms: seq<u64>, den: u64): (r: seq<real>)
    requires den > 0
    ensures |r| == |terms|
    ensures forall k :: 0 <= k < |r| ==> r[k] >= 0.0 && (r[k] == 0.0 <==> terms[k] == 0)
  {
    seq(|terms|, k requires 0 <= k < |terms| => terms[k] as real / den as real)
  }

  /** `Frequencies::compare` over exact reals. `None` stands for the
      division by a zero denominator. */
  function Compare(f: Frequencies, g: Frequencies): (r: Option<real>)
    requires ProductsFit(f, g)
    ensures r.None? <==> f.total == 0 || g.total == 0
  {
    var den := Denominator(f, g);
    if den == 0 then None else Some(RealSum(Quotients(Terms(f, g), den)))
  }

  function RealAbs(x: real): real
  {
    if x < 0.0 then -x else x
  }

  /** The distance `compare` is meant to measure: the sum over all byte
      values of the difference of their relative frequencies. */
  ghost function Distance(f: Frequencies, g: Frequencies): real
    requires f.total > 0 && g.total > 0
  {
    RealSum(seq(256, v requires 0 <= v < 256 =>
      RealAbs(f.histogram[v] as real / f.total as real - g.histogram[v] as real / g.total as real)))
  }

  /** A sum of non-negative terms is zero exactly when every term is. */
  lemma {:induction false} RealSumZero(xs: seq<real>)
    requires forall k :: 0 <= k < |xs| ==> xs[k] >= 0.0
    ensures RealSum(xs) == 0.0 <==> forall k :: 0 <= k < |xs| ==> xs[k] == 0.0
  {
    if xs != [] {
      var init := xs[..|xs| - 1];
      RealSumZero(init);
      assert forall k :: 0 <= k < |init| ==> init[k] == xs[k];
      if RealSum(xs) == 0.0 {
        forall k | 0 <= k < |xs|
          ensures xs[k] == 0.0
        {
          if k < |xs| - 1 {
            assert xs[k] == init[k];
          }
        }
      }
    }
  }

  /** One term of `compare`: the scaled difference over the product of the
      totals is the difference of the relative frequencies. */
  lemma TermQuotient(a: int, b: int, ta: int, tb: int)
    requires ta > 0 && tb > 0
    ensures Abs(tb * a - ta * b) as real / (ta * tb) as real
         == RealAbs(a as real / ta as real - b as real / tb as real)
  {
    var den := (ta * tb) as real;
    var d := (tb * a - ta * b) as real;
    var q := a as real / ta as real - b as real / tb as real;
    assert den == ta as real * tb as real;
    assert q * den == d;
    assert q == d / den;
    if d < 0.0 {
      assert q < 0.0;
      assert Abs(tb * a - ta * b) as real == -d;
    } else {
      assert q >= 0.0;
    }
  }

  lemma ProductsFitSymmetric(f: Frequencies, g: Frequencies)
    requires ProductsFit(f, g)
    ensures ProductsFit(g, f)
  {
  }

  /** The terms and the denominator of `compare` do not depend on the order
      of its operands. */
  lemma TermsSymmetric(f: Frequencies, g: Frequencies)
    requires ProductsFit(f, g)
    ensures ProductsFit(g, f)
    ensures Terms(f, g) == Terms(g, f)
    ensures Denominator(f, g) == Denominator(g, f)
  {
    ProductsFitSymmetric(f, g);
    var x, y := Terms(f, g), Terms(g, f);
    forall v | 0 <= v < 256
      ensures x[v] == y[v]
    {
      assert f.total as int * g.histogram[v] as int - g.total as int * f.histogram[v] as int
          == -(g.total as int * f.histogram[v] as int - f.total as int * g.histogram[v] as int);
    }
  }

  /** Against itself every term of `compare` is zero. */
  lemma TermsSelf(f: Frequencies)
    requires ProductsFit(f, f)
    ensures forall v :: 0 <= v < 256 ==> Terms(f, f)[v] == 0
  {
  }

  /** Over exact reals, `compare` is the distance between the two
      relative-frequency distributions. */
  lemma CompareIsDistance(f: Frequencies, g: Frequencies)
    requires ProductsFit(f, g)
    requires f.total > 0 && g.total > 0
    ensures Compare(f, g) == Some(Distance(f, g))
  {
    var den := Denominator(f, g);
    var terms := Terms(f, g);
    var xs := Quotients(terms, den);
    var ys := seq(256, v requires 0 <= v < 256 =>
      RealAbs(f.histogram[v] as real / f.total as real - g.histogram[v] as real / g.total as real));
    forall v | 0 <= v < 256
      ensures xs[v] == ys[v]
    {
      TermQuotient(f.histogram[v] as int, g.histogram[v] as int, f.total as int, g.total as int);
    }
    assert xs == ys;
  }

  lemma CompareNonNegative(f: Frequencies, g: Frequencies)
    requires ProductsFit(f, g)
    ensures Compare(f, g).Some? ==> Compare(f, g).value >= 0.0
  {
  }

  lemma CompareSymmetric(f: Frequencies, g: Frequencies)
    requires ProductsFit(f, g)
    ensures ProductsFit(g, f)
    ensures Compare(f, g) == Compare(g, f)
  {
    TermsSymmetric(f, g);
  }

  /** `compare` is zero exactly when the two histograms are proportional,
      that is when every byte value has the same relative frequency. */
  lemma CompareZero(f: Frequencies, g: Frequencies)
    requires ProductsFit(f, g)
    requires f.total > 0 && g.total > 0
    ensures Compare(f, g) == Some(0.0) <==>
      forall v :: 0 <= v < 256 ==> g.total as int * f.histogram[v] as int == f.total as int * g.histogram[v] as int
  {
    RealSumZero(Quotients(Terms(f, g), Denominator(f, g)));
  }

  /** A histogram compared with itself scores zero. */
  lemma CompareSelf(f: Frequencies)
    requires ProductsFit(f, f)
    requires f.total > 0
    ensures Compare(f, f) == Some(0.0)
  {
    CompareZero(f, f);
  }

  // Languages

  const EnglishRow0: seq<u32> := [13, 2, 0, 0, 0, 0, 0, 0, 0, 0, 0, 0, 0, 0, 0, 0]
  const EnglishRow1: seq<u32> := [0, 0, 0, 0, 0, 0, 11, 0, 0, 0, 0, 0, 0, 0, 0, 0]
  const EnglishRow2: seq<u32> := [384035805, 1123327, 7321259, 14835, 28553, 4135, 165612, 4830175, 963365, 965784, 419617, 88192, 31583405, 7372705, 21790098, 98002]
  const EnglishRow3: seq<u32> := [1437354, 2840886, 1899425, 1527604, 1452646, 1410993, 1363304, 1264624, 1311226, 1122150, 991787, 4093888, 31901, 100809, 32710, 1165544]
  const EnglishRow4: seq<u32> := [11296, 5633685, 2871772, 3294048, 2039758, 3729813, 1910711, 1875503, 3540484, 8040216, 1250024, 647512, 2414273, 3527972, 2585121, 2394119]
  const EnglishRow5: seq<u32> := [2242129, 146172, 2964304, 4777371, 6295483, 752026, 706806, 2631954, 200577, 965475, 86984, 562022, 1423, 554950, 9351, 3465454]
  const EnglishRow6: seq<u32> := [2340, 130884173, 23438350, 42243181, 69024434, 210634657, 38708937, 31191472, 100015788, 110295057, 1536641, 10939137, 65914244, 39493750, 116305618, 126880206]
  const EnglishRow7: seq<u32> := [28589079, 1731052, 100440282, 104205185, 149461559, 46929093, 16342510, 34023166, 2754435, 30591688, 1063748, 11025, 223609, 10426, 9606, 1]
  const EnglishRow8: seq<u32> := [8392, 4143, 984, 443, 1145, 251, 4024, 884, 919, 5633, 191, 198, 162, 1623, 284, 106]
  const EnglishRow9: seq<u32> := [181, 680, 263, 1081, 1492, 33, 641, 208, 49, 2516, 1157, 432, 2485, 1902, 376, 35]
  const EnglishRow10: seq<u32> := [22703, 18820, 19806, 8549, 4281, 225, 16019, 7986, 17220, 405194, 7526, 3797, 496, 6050, 3462, 2489]
  const EnglishRow11: seq<u32> := [12434, 8146, 1211, 4675, 7051, 700, 9283, 2496, 264, 2568, 4495, 2517, 8480, 2700, 1332, 1498]
  const EnglishRow12: seq<u32> := [3, 0, 372566, 254259, 35, 868, 18, 0, 0, 19, 0, 2, 773, 26, 5453, 3236]
  const EnglishRow13: seq<u32> := [0, 0, 0, 2, 0, 0, 3, 148, 0, 0, 0, 0, 0, 0, 7, 0]
  const EnglishRow14: seq<u32> := [130, 1582, 7723, 0, 132, 0, 180, 87, 226, 1144, 106, 87, 4, 6, 7, 64]
  const EnglishRow15: seq<u32> := [0, 259, 3, 7, 86, 0, 149, 2, 0, 9, 6, 32, 91, 0, 19, 0]

  /** Four rows of the table at a time. */
  const EnglishQuarter0: seq<u32> := EnglishRow0 + EnglishRow1 + EnglishRow2 + EnglishRow3
  const EnglishQuarter1: seq<u32> := EnglishRow4 + EnglishRow5 + EnglishRow6 + EnglishRow7
  const EnglishQuarter2: seq<u32> := EnglishRow8 + EnglishRow9 + EnglishRow10 + EnglishRow11
  const EnglishQuarter3: seq<u32> := EnglishRow12 + EnglishRow13 + EnglishRow14 + EnglishRow15

  /** `ENGLISH_UTF8`, byte frequencies of Project Gutenberg text, one row of
      sixteen buckets per line of the table. */
  const English: Frequencies := Frequencies(
    EnglishQuarter0 + EnglishQuarter1 + EnglishQuarter2 + EnglishQuarter3,
    2190181928)

  lemma SumCons(r: seq<u32>, k: nat)
    requires k < |r|
    ensures Sum(r[k..]) == r[k] as int + Sum(r[k + 1..])
  {
    assert r[k..][1..] == r[k + 1..];
  }

  lemma SumSixteen(r: seq<u32>)
    requires |r| == 16
    ensures Sum(r) == r[0] as int + r[1] as int + r[2] as int + r[3] as int + r[4] as int + r[5] as int + r[6] as int
      + r[7] as int + r[8] as int + r[9] as int + r[10] as int + r[11] as int + r[12] as int + r[13] as int
      + r[14] as int + r[15] as int
  {
    assert r[0..] == r;
    SumCons(r, 0); SumCons(r, 1); SumCons(r, 2); SumCons(r, 3);
    SumCons(r, 4); SumCons(r, 5); SumCons(r, 6); SumCons(r, 7);
    SumCons(r, 8); SumCons(r, 9); SumCons(r, 10); SumCons(r, 11);
    SumCons(r, 12); SumCons(r, 13); SumCons(r, 14); SumCons(r, 15);
    assert r[16..] == [];
  }

  /** The sum of a row given element by element. */
  lemma SumRow(a0: u32, a1: u32, a2: u32, a3: u32, a4: u32, a5: u32, a6: u32, a7: u32,
               a8: u32, a9: u32, a10: u32, a11: u32, a12: u32, a13: u32, a14: u32, a15: u32)
    ensures Sum([a0, a1, a2, a3, a4, a5, a6, a7, a8, a9, a10, a11, a12, a13, a14, a15])
         == a0 as int + a1 as int + a2 as int + a3 as int + a4 as int + a5 as int + a6 as int + a7 as int
          + a8 as int + a9 as int + a10 as int + a11 as int + a12 as int + a13 as int + a14 as int + a15 as int
  {
    SumSixteen([a0, a1, a2, a3, a4, a5, a6, a7, a8, a9, a10, a11, a12, a13, a14, a15]);
  }

  lemma EnglishRowSum0()
    ensures Sum(EnglishRow0) == 15
  {
    SumRow(13, 2, 0, 0, 0, 0, 0, 0, 0, 0, 0, 0, 0, 0, 0, 0);
  }

  lemma EnglishRowSum1()
    ensures Sum(EnglishRow1) == 11
  {
    SumRow(0, 0, 0, 0, 0, 0, 11, 0, 0, 0, 0, 0, 0, 0, 0, 0);
  }

  lemma EnglishRowSum2()
    ensures Sum(EnglishRow2) == 460804869
  {
    SumRow(384035805, 1123327, 7321259, 14835, 28553, 4135, 165612, 4830175, 963365, 965784, 419617, 88192, 31583405, 7372705, 21790098, 98002);
  }

  lemma EnglishRowSum3()
    ensures Sum(EnglishRow3) == 22046851
  {
    SumRow(1437354, 2840886, 1899425, 1527604, 1452646, 1410993, 1363304, 1264624, 1311226, 1122150, 991787, 4093888, 31901, 100809, 32710, 1165544);
  }

  lemma EnglishRowSum4()
    ensures Sum(EnglishRow4) == 45766307
  {
    SumRow(11296, 5633685, 2871772, 3294048, 2039758, 3729813, 1910711, 1875503, 3540484, 8040216, 1250024, 647512, 2414273, 3527972, 2585121, 2394119);
  }

  lemma EnglishRowSum5()
    ensures Sum(EnglishRow5) == 26362481
  {
    SumRow(2242129, 146172, 2964304, 4777371, 6295483, 752026, 706806, 2631954, 200577, 965475, 86984, 562022, 1423, 554950, 9351, 3465454);
  }

  lemma EnglishRowSum6()
    ensures Sum(EnglishRow6) == 1117507985
  {
    SumRow(2340, 130884173, 23438350, 42243181, 69024434, 210634657, 38708937, 31191472, 100015788, 110295057, 1536641, 10939137, 65914244, 39493750, 116305618, 126880206);
  }

  lemma EnglishRowSum7()
    ensures Sum(EnglishRow7) == 516386464
  {
    SumRow(28589079, 1731052, 100440282, 104205185, 149461559, 46929093, 16342510, 34023166, 2754435, 30591688, 1063748, 11025, 223609, 10426, 9606, 1);
  }

  lemma EnglishRowSum8()
    ensures Sum(EnglishRow8) == 29382
  {
    SumRow(8392, 4143, 984, 443, 1145, 251, 4024, 884, 919, 5633, 191, 198, 162, 1623, 284, 106);
  }

  lemma EnglishRowSum9()
    ensures Sum(EnglishRow9) == 13531
  {
    SumRow(181, 680, 263, 1081, 1492, 33, 641, 208, 49, 2516, 1157, 432, 2485, 1902, 376, 35);
  }

  lemma EnglishRowSum10()
    ensures Sum(EnglishRow10) == 544623
  {
    SumRow(22703, 18820, 19806, 8549, 4281, 225, 16019, 7986, 17220, 405194, 7526, 3797, 496, 6050, 3462, 2489);
  }

  lemma EnglishRowSum11()
    ensures Sum(EnglishRow11) == 69850
  {
    SumRow(12434, 8146, 1211, 4675, 7051, 700, 9283, 2496, 264, 2568, 4495, 2517, 8480, 2700, 1332, 1498);
  }

  lemma EnglishRowSum12()
    ensures Sum(EnglishRow12) == 637258
  {
    SumRow(3, 0, 372566, 254259, 35, 868, 18, 0, 0, 19, 0, 2, 773, 26, 5453, 3236);
  }

  lemma EnglishRowSum13()
    ensures Sum(EnglishRow13) == 160
  {
    SumRow(0, 0, 0, 2, 0, 0, 3, 148, 0, 0, 0, 0, 0, 0, 7, 0);
  }

  lemma EnglishRowSum14()
    ensures Sum(EnglishRow14) == 11478
  {
    SumRow(130, 1582, 7723, 0, 132, 0, 180, 87, 226, 1144, 106, 87, 4, 6, 7, 64);
  }

  lemma EnglishRowSum15()
    ensures Sum(EnglishRow15) == 663
  {
    SumRow(0, 259, 3, 7, 86, 0, 149, 2, 0, 9, 6, 32, 91, 0, 19, 0);
  }

  lemma EnglishQuarterSum0()
    ensures Sum(EnglishQuarter0) == 482851746
  {
    EnglishRowSum0();
    EnglishRowSum1();
    EnglishRowSum2();
    EnglishRowSum3();
    SumAppend(EnglishRow0, EnglishRow1);
    SumAppend(EnglishRow0 + EnglishRow1, EnglishRow2);
    SumAppend(EnglishRow0 + EnglishRow1 + EnglishRow2, EnglishRow3);
  }

  lemma EnglishQuarterSum1()
    ensures Sum(EnglishQuarter1) == 1706023237
  {
    EnglishRowSum4();
    EnglishRowSum5();
    EnglishRowSum6();
    EnglishRowSum7();
    SumAppend(EnglishRow4, EnglishRow5);
    SumAppend(EnglishRow4 + EnglishRow5, EnglishRow6);
    SumAppend(EnglishRow4 + EnglishRow5 + EnglishRow6, EnglishRow7);
  }

  lemma EnglishQuarterSum2()
    ensures Sum(EnglishQuarter2) == 657386
  {
    EnglishRowSum8();
    EnglishRowSum9();
    EnglishRowSum10();
    EnglishRowSum11();
    SumAppend(EnglishRow8, EnglishRow9);
    SumAppend(EnglishRow8 + EnglishRow9, EnglishRow10);
    SumAppend(EnglishRow8 + EnglishRow9 + EnglishRow10, EnglishRow11);
  }

  lemma EnglishQuarterSum3()
    ensures Sum(EnglishQuarter3) == 649559
  {
    EnglishRowSum12();
    EnglishRowSum13();
    EnglishRowSum14();
    EnglishRowSum15();
    SumAppend(EnglishRow12, EnglishRow13);
    SumAppend(EnglishRow12 + EnglishRow13, EnglishRow14);
    SumAppend(EnglishRow12 + EnglishRow13 + EnglishRow14, EnglishRow15);
  }

  /** The stated total of the English table is the sum of its buckets. */
  lemma EnglishTotal()
    ensures Sum(English.histogram) == English.total as int
  {
    EnglishQuarterSum0();
    EnglishQuarterSum1();
    EnglishQuarterSum2();
    EnglishQuarterSum3();
    SumAppend(EnglishQuarter0, EnglishQuarter1);
    SumAppend(EnglishQuarter0 + EnglishQuarter1, EnglishQuarter2);
    SumAppend(EnglishQuarter0 + EnglishQuarter1 + EnglishQuarter2, EnglishQuarter3);
  }

  /** `enum Language`. */
  datatype Language = EnglishUtf8

  /** `Language::frequencies`: the table of a language, whose total is the
      sum of its buckets. */
  function LanguageFrequencies(lang: Language): (f: Frequencies)
    ensures Sum(f.histogram) == f.total as int
    ensures f.total > 0
  {
    EnglishTotal();
    match lang
    case EnglishUtf8 => English
  }

  /** Bytes occur at most as often as the input is long. */
  lemma {:induction false} OccurrencesBound(bytes: seq<byte>, x: int)
    ensures Count(bytes, x) <= |bytes|
  {
    if bytes != [] {
      OccurrencesBound(bytes[1..], x);
    }
  }

  lemma MulMonotone(a: nat, b: nat, c: nat)
    requires b <= c
    ensures a * b <= a * c
  {
  }

  /** Comparing a table whose total is the sum of its buckets against the
      frequencies of `bytes` overflows no product when the product of the
      two totals fits. */
  lemma ProductsFitWithin(f: Frequencies, bytes: seq<byte>)
    requires Countable(bytes)
    requires Sum(f.histogram) == f.total as int
    requires f.total as int * |bytes| <= U64_MAX
    ensures ProductsFit(f, HistogramOf(bytes))
  {
    var g := HistogramOf(bytes);
    forall v | 0 <= v < 256
      ensures g.total as int * f.histogram[v] as int <= U64_MAX
      ensures f.total as int * g.histogram[v] as int <= U64_MAX
    {
      SumBound(f.histogram, v);
      MulMonotone(|bytes|, f.histogram[v] as int, f.total as int);
      OccurrencesBound(bytes, v);
      MulMonotone(f.total as int, g.histogram[v] as int, |bytes|);
    }
  }

  /** `Language::compare`: the language's table compared with the
      frequencies of `bytes`; `None` exactly for empty input. */
  method LanguageCompare(lang: Language, bytes: seq<byte>) returns (score: Option<real>)
    requires Countable(bytes)
    requires LanguageFrequencies(lang).total as int * |bytes| <= U64_MAX
    ensures ProductsFit(LanguageFrequencies(lang), HistogramOf(bytes))
    ensures score == Compare(LanguageFrequencies(lang), HistogramOf(bytes))
    ensures score.None? <==> bytes == []
  {
    ProductsFitWithin(LanguageFrequencies(lang), bytes);
    var f := FromBytes(bytes);
    score := Compare(LanguageFrequencies(lang), f);
  }
}

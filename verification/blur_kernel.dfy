/**
 * The fragment shaders of both blur pipelines, over real numbers.
 *
 * The kernels are first stated for any weights: a 2-D weight `w2` for the
 * direct shader and a 1-D weight `w1` for the two passes of the separable
 * one. The Gaussian weights then instantiate them. There `q` stands for
 * x |-> exp(-x): the 1-D weight of offset d is q(d^2 / (2 sigma^2)) and the
 * direct 2-D weight of offset (i, j) is q((i^2 + j^2) / (2 sigma^2)), with
 * sigma = r / 3. The one assumption about `q` is the law
 * exp(-(a + b)) = exp(-a) exp(-b) at the exponents the window uses
 * (`ExpLaw`), together with positivity (`PositiveWeights`).
 */
module BlurKernel {
  import TextureMetadata

  // ---------------------------------------------------------------------------
  // Finite sums over integer ranges
  // ---------------------------------------------------------------------------

  /** f(lo) + f(lo + 1) + ... + f(hi - 1), accumulated from the low end. */
  function SumFrom(lo: int, hi: int, f: int -> real): real
    decreases hi - lo
  {
    if lo >= hi then 0.0 else f(lo) + SumFrom(lo + 1, hi, f)
  }

  /**
   * f(lo) + f(lo + 1) + ... + f(hi - 1). Stated through a non-recursive name
   * so that every mention of a sum in a contract unfolds by one step only.
   */
  function Sum(lo: int, hi: int, f: int -> real): real {
    SumFrom(lo, hi, f)
  }

  lemma {:induction false} SumExt(lo: int, hi: int, f: int -> real, g: int -> real)
    requires forall k :: lo <= k < hi ==> f(k) == g(k)
    ensures Sum(lo, hi, f) == Sum(lo, hi, g)
    decreases hi - lo
  {
    if lo < hi {
      SumExt(lo + 1, hi, f, g);
    }
  }

  lemma {:induction false} SumScale(lo: int, hi: int, f: int -> real, c: real, g: int -> real)
    requires forall k :: lo <= k < hi ==> g(k) == c * f(k)
    ensures Sum(lo, hi, g) == c * Sum(lo, hi, f)
    decreases hi - lo
  {
    if lo < hi {
      SumScale(lo + 1, hi, f, c, g);
    }
  }

  lemma {:induction false} SumAdd(lo: int, hi: int, f: int -> real, g: int -> real, h: int -> real)
    requires forall k :: lo <= k < hi ==> h(k) == f(k) + g(k)
    ensures Sum(lo, hi, h) == Sum(lo, hi, f) + Sum(lo, hi, g)
    decreases hi - lo
  {
    if lo < hi {
      SumAdd(lo + 1, hi, f, g, h);
    }
  }

  lemma {:induction false} SumPositive(lo: int, hi: int, f: int -> real)
    requires lo < hi
    requires forall k :: lo <= k < hi ==> f(k) > 0.0
    ensures Sum(lo, hi, f) > 0.0
    decreases hi - lo
  {
    if lo + 1 < hi {
      SumPositive(lo + 1, hi, f);
    } else {
      assert Sum(lo + 1, hi, f) == 0.0;
    }
  }

  lemma {:induction false} SumMono(lo: int, hi: int, f: int -> real, g: int -> real)
    requires forall k :: lo <= k < hi ==> f(k) <= g(k)
    ensures Sum(lo, hi, f) <= Sum(lo, hi, g)
    decreases hi - lo
  {
    if lo < hi {
      SumMono(lo + 1, hi, f, g);
    }
  }

  /** k |-> c * f(k) */
  function Scaled(f: int -> real, c: real): int -> real {
    k => c * f(k)
  }

  /** Termwise m w(k) <= u(k) <= M w(k) carries over to the sums. */
  lemma SumSandwich(lo: int, hi: int, w: int -> real, u: int -> real, m: real, M: real)
    requires forall k :: lo <= k < hi ==> m * w(k) <= u(k) <= M * w(k)
    ensures m * Sum(lo, hi, w) <= Sum(lo, hi, u) <= M * Sum(lo, hi, w)
  {
    SumScale(lo, hi, w, m, Scaled(w, m));
    SumScale(lo, hi, w, M, Scaled(w, M));
    SumMono(lo, hi, Scaled(w, m), u);
    SumMono(lo, hi, u, Scaled(w, M));
  }

  /** A ratio of sums whose terms are sandwiched lies between the bounds. */
  lemma SumRatioBetween(lo: int, hi: int, w: int -> real, u: int -> real, m: real, M: real)
    requires Sum(lo, hi, w) > 0.0
    requires forall k :: lo <= k < hi ==> m * w(k) <= u(k) <= M * w(k)
    ensures m <= Sum(lo, hi, u) / Sum(lo, hi, w) <= M
  {
    SumSandwich(lo, hi, w, u, m, M);
    RatioBounds(Sum(lo, hi, u), Sum(lo, hi, w), m, M);
  }

  /** Scaling numerator and denominator terms by the same non-zero constant leaves the ratio of sums unchanged. */
  lemma SumRatioScale(lo: int, hi: int, f: int -> real, g: int -> real, w: int -> real, v: int -> real, c: real)
    requires c != 0.0 && Sum(lo, hi, w) != 0.0 && Sum(lo, hi, v) != 0.0
    requires forall k :: lo <= k < hi ==> g(k) == c * f(k)
    requires forall k :: lo <= k < hi ==> v(k) == c * w(k)
    ensures Sum(lo, hi, g) / Sum(lo, hi, v) == Sum(lo, hi, f) / Sum(lo, hi, w)
  {
    SumScale(lo, hi, f, c, g);
    SumScale(lo, hi, w, c, v);
    DivCancel(Sum(lo, hi, f), Sum(lo, hi, w), c);
  }

  /** Row i of a two-argument function, as a function of j. */
  function RowOf(F: (int, int) -> real, i: int): int -> real {
    j => F(i, j)
  }

  /** Column j of a two-argument function, as a function of i. */
  function ColOf(F: (int, int) -> real, j: int): int -> real {
    i => F(i, j)
  }

  /** i |-> sum over j in [c, d) of F(i, j) */
  function RowSums(F: (int, int) -> real, c: int, d: int): int -> real {
    i => Sum(c, d, RowOf(F, i))
  }

  /** j |-> sum over i in [a, b) of F(i, j) */
  function ColSums(F: (int, int) -> real, a: int, b: int): int -> real {
    j => Sum(a, b, ColOf(F, j))
  }

  /** `SumSandwich` for row i of two-argument functions. */
  lemma RowSandwich(W: (int, int) -> real, U: (int, int) -> real, c: int, d: int, i: int, m: real, M: real)
    requires forall j :: c <= j < d ==> m * RowOf(W, i)(j) <= RowOf(U, i)(j) <= M * RowOf(W, i)(j)
    ensures m * RowSums(W, c, d)(i) <= RowSums(U, c, d)(i) <= M * RowSums(W, c, d)(i)
  {
    SumSandwich(c, d, RowOf(W, i), RowOf(U, i), m, M);
    assert RowSums(W, c, d)(i) == Sum(c, d, RowOf(W, i));
    assert RowSums(U, c, d)(i) == Sum(c, d, RowOf(U, i));
  }

  /** A finite double sum may be taken in either order. */
  lemma {:induction false} SumSwap(a: int, b: int, c: int, d: int, F: (int, int) -> real)
    ensures Sum(a, b, RowSums(F, c, d)) == Sum(c, d, ColSums(F, a, b))
    decreases b - a
  {
    if a >= b {
      SumScale(c, d, ColSums(F, a, b), 0.0, ColSums(F, a, b));
    } else {
      SumSwap(a + 1, b, c, d, F);
      forall j | c <= j < d
        ensures ColSums(F, a, b)(j) == RowOf(F, a)(j) + ColSums(F, a + 1, b)(j)
      {
        assert ColOf(F, j)(a) == F(a, j);
        SumExt(a + 1, b, ColOf(F, j), ColOf(F, j));
      }
      SumAdd(c, d, RowOf(F, a), ColSums(F, a + 1, b), ColSums(F, a, b));
    }
  }

  // ---------------------------------------------------------------------------
  // Textures and windows
  // ---------------------------------------------------------------------------

  /** A texture's contents: channel c of the texel at column x, row y. */
  datatype Plane = Plane(width: int, height: int, texel: (int, int, int) -> real)

  /**
   * `textureLoad`: in-range coordinates read the texture; what an
   * out-of-range read returns is up to the backend and is given by `outside`.
   */
  function Load(p: Plane, outside: (int, int, int) -> real, x: int, y: int, c: int): real {
    if 0 <= x < p.width && 0 <= y < p.height then p.texel(x, y, c) else outside(x, y, c)
  }

  /** One channel of a texture as the kernels see it: `textureLoad` at every (x, y). */
  function ChannelOf(p: Plane, outside: (int, int, int) -> real, c: int): (int, int) -> real {
    (x, y) => Load(p, outside, x, y, c)
  }

  /** The loops run from -r to r inclusive. */
  predicate InWindow(r: int, d: int) {
    -r <= d <= r
  }

  ghost predicate Positive1(w1: int -> real, r: int) {
    forall d {:trigger w1(d)} :: InWindow(r, d) ==> w1(d) > 0.0
  }

  ghost predicate Positive2(w2: (int, int) -> real, r: int) {
    forall i, j {:trigger w2(i, j)} :: InWindow(r, i) && InWindow(r, j) ==> w2(i, j) > 0.0
  }

  /** The 2-D weight is the product of two 1-D weights. */
  ghost predicate Separable(w1: int -> real, w2: (int, int) -> real, r: int) {
    forall i, j {:trigger w2(i, j)} :: InWindow(r, i) && InWindow(r, j) ==> w2(i, j) == w1(i) * w1(j)
  }

  lemma SeparablePositive(w1: int -> real, w2: (int, int) -> real, r: int)
    requires Positive1(w1, r) && Separable(w1, w2, r)
    ensures Positive2(w2, r)
  {
    forall i, j | InWindow(r, i) && InWindow(r, j)
      ensures w2(i, j) > 0.0
    {
      assert w1(i) > 0.0 && w1(j) > 0.0;
    }
  }

  // ---------------------------------------------------------------------------
  // The direct kernel (`fs` of the direct shader), on one channel `img`
  // ---------------------------------------------------------------------------

  /** norm * w2(i, j) * I(x + i, y + j), the summand of `blur` */
  function DirectTerm(img: (int, int) -> real, x: int, y: int, norm: real, w2: (int, int) -> real): (int, int) -> real {
    (i, j) => norm * w2(i, j) * img(x + i, y + j)
  }

  /** norm * w2(i, j), the summand of `weightSum` */
  function DirectWeight(norm: real, w2: (int, int) -> real): (int, int) -> real {
    (i, j) => norm * w2(i, j)
  }

  lemma DirectWeightPositive(r: int, norm: real, w2: (int, int) -> real)
    requires r >= 0 && norm > 0.0 && Positive2(w2, r)
    ensures Sum(-r, r + 1, RowSums(DirectWeight(norm, w2), -r, r + 1)) > 0.0
  {
    var lo, hi := -r, r + 1;
    var w := DirectWeight(norm, w2);
    forall i | lo <= i < hi
      ensures RowSums(w, lo, hi)(i) > 0.0
    {
      forall j | lo <= j < hi
        ensures RowOf(w, i)(j) > 0.0
      {
        assert InWindow(r, i) && InWindow(r, j);
        assert w2(i, j) > 0.0;
      }
      SumPositive(lo, hi, RowOf(w, i));
    }
    SumPositive(lo, hi, RowSums(w, lo, hi));
  }

  function DirectWeightSum(r: int, norm: real, w2: (int, int) -> real): (s: real)
    requires r >= 0 && norm > 0.0 && Positive2(w2, r)
    ensures s > 0.0
  {
    DirectWeightPositive(r, norm, w2);
    Sum(-r, r + 1, RowSums(DirectWeight(norm, w2), -r, r + 1))
  }

  /** The direct kernel at (x, y): offsets i (outer loop) and j (inner loop) in [-r, r]. */
  function DirectChannel(img: (int, int) -> real, x: int, y: int, r: int, norm: real, w2: (int, int) -> real): real
    requires r >= 0 && norm > 0.0 && Positive2(w2, r)
  {
    Sum(-r, r + 1, RowSums(DirectTerm(img, x, y, norm, w2), -r, r + 1)) / DirectWeightSum(r, norm, w2)
  }

  // ---------------------------------------------------------------------------
  // The 1-D kernel (`blurW` for direction 0, `blurH` for direction 1)
  // ---------------------------------------------------------------------------

  function OffsetX(direction: int, k: int): int {
    if direction == 0 then k else 0
  }

  function OffsetY(direction: int, k: int): int {
    if direction == 0 then 0 else k
  }

  function PassTerm(img: (int, int) -> real, direction: int, x: int, y: int, norm: real, w1: int -> real): int -> real {
    k => norm * w1(k) * img(x + OffsetX(direction, k), y + OffsetY(direction, k))
  }

  function PassWeight(norm: real, w1: int -> real): int -> real {
    k => norm * w1(k)
  }

  lemma PassWeightPositive(r: int, norm: real, w1: int -> real)
    requires r >= 0 && norm > 0.0 && Positive1(w1, r)
    ensures Sum(-r, r + 1, PassWeight(norm, w1)) > 0.0
  {
    var lo, hi := -r, r + 1;
    forall k | lo <= k < hi
      ensures PassWeight(norm, w1)(k) > 0.0
    {
      assert InWindow(r, k);
    }
    SumPositive(lo, hi, PassWeight(norm, w1));
  }

  function PassWeightSum(r: int, norm: real, w1: int -> real): (s: real)
    requires r >= 0 && norm > 0.0 && Positive1(w1, r)
    ensures s > 0.0
  {
    PassWeightPositive(r, norm, w1);
    Sum(-r, r + 1, PassWeight(norm, w1))
  }

  function PassChannel(img: (int, int) -> real, direction: int, x: int, y: int, r: int, norm: real, w1: int -> real): real
    requires r >= 0 && norm > 0.0 && Positive1(w1, r)
  {
    Sum(-r, r + 1, PassTerm(img, direction, x, y, norm, w1)) / PassWeightSum(r, norm, w1)
  }

  // ---------------------------------------------------------------------------
  // Real arithmetic steps, kept apart so that each proof stays small
  // ---------------------------------------------------------------------------

  lemma DivCancel(a: real, b: real, k: real)
    requires b != 0.0 && k != 0.0
    ensures (k * a) / (k * b) == a / b
  {
  }

  lemma ScaleBounds(w: real, v: real, m: real, M: real)
    requires w > 0.0 && m <= v <= M
    ensures m * w <= w * v <= M * w
  {
    assert (v - m) * w >= 0.0;
    assert (M - v) * w >= 0.0;
  }

  lemma RatioBounds(s: real, n: real, m: real, M: real)
    requires n > 0.0 && m * n <= s <= M * n
    ensures m <= s / n <= M
  {
  }

  lemma MulDiv(v: real, a: real, b: real, g: real, s: real)
    requires g != 0.0 && v == 1.0 * a * (b / g) && s == a * b
    ensures v == (1.0 / g) * s
  {
  }

  lemma Rearrange(a: real, b: real, v: real)
    ensures 1.0 * (a * b) * v == b * (1.0 * a * v)
  {
  }

  lemma DivTwice(p: real, u: real, c: real, s: real, g: real)
    requires g != 0.0 && p == u / g && u == (1.0 / g) * c && c == s
    ensures p == s / (g * g)
  {
    assert (1.0 / g) * s / g == s / (g * g);
  }

  // ---------------------------------------------------------------------------
  // Properties of the kernels
  // ---------------------------------------------------------------------------

  lemma ScaleTerm(n: real, a: real, v: real)
    ensures n * a * v == n * (1.0 * a * v)
    ensures n * a == n * (1.0 * a)
  {
  }

  /** The constant factor `norm` of the 1-D kernel cancels against the weight sum. */
  lemma PassNormCancels(img: (int, int) -> real, direction: int, x: int, y: int, r: int, norm: real, w1: int -> real)
    requires r >= 0 && norm > 0.0 && Positive1(w1, r)
    ensures PassChannel(img, direction, x, y, r, norm, w1) == PassChannel(img, direction, x, y, r, 1.0, w1)
  {
    var lo, hi := -r, r + 1;
    var t := PassTerm(img, direction, x, y, norm, w1);
    var t1 := PassTerm(img, direction, x, y, 1.0, w1);
    var w := PassWeight(norm, w1);
    var w1s := PassWeight(1.0, w1);
    forall k | lo <= k < hi
      ensures t(k) == norm * t1(k) && w(k) == norm * w1s(k)
    {
      ScaleTerm(norm, w1(k), img(x + OffsetX(direction, k), y + OffsetY(direction, k)));
    }
    PassWeightPositive(r, 1.0, w1);
    PassWeightPositive(r, norm, w1);
    SumRatioScale(lo, hi, t1, t, w1s, w, norm);
  }

  lemma DirectRowScales(img: (int, int) -> real, x: int, y: int, r: int, norm: real, w2: (int, int) -> real, i: int)
    requires r >= 0
    ensures RowSums(DirectTerm(img, x, y, norm, w2), -r, r + 1)(i)
         == norm * RowSums(DirectTerm(img, x, y, 1.0, w2), -r, r + 1)(i)
    ensures RowSums(DirectWeight(norm, w2), -r, r + 1)(i) == norm * RowSums(DirectWeight(1.0, w2), -r, r + 1)(i)
  {
    var lo, hi := -r, r + 1;
    var t := RowOf(DirectTerm(img, x, y, norm, w2), i);
    var t1 := RowOf(DirectTerm(img, x, y, 1.0, w2), i);
    var w := RowOf(DirectWeight(norm, w2), i);
    var w1 := RowOf(DirectWeight(1.0, w2), i);
    forall j | lo <= j < hi
      ensures t(j) == norm * t1(j) && w(j) == norm * w1(j)
    {
      ScaleTerm(norm, w2(i, j), img(x + i, y + j));
    }
    SumScale(lo, hi, t1, norm, t);
    SumScale(lo, hi, w1, norm, w);
  }

  /** The constant factor `norm` of the direct kernel cancels against the weight sum. */
  lemma DirectNormCancels(img: (int, int) -> real, x: int, y: int, r: int, norm: real, w2: (int, int) -> real)
    requires r >= 0 && norm > 0.0 && Positive2(w2, r)
    ensures DirectChannel(img, x, y, r, norm, w2) == DirectChannel(img, x, y, r, 1.0, w2)
  {
    var lo, hi := -r, r + 1;
    var t := RowSums(DirectTerm(img, x, y, norm, w2), lo, hi);
    var t1 := RowSums(DirectTerm(img, x, y, 1.0, w2), lo, hi);
    var w := RowSums(DirectWeight(norm, w2), lo, hi);
    var w1 := RowSums(DirectWeight(1.0, w2), lo, hi);
    forall i | lo <= i < hi
      ensures t(i) == norm * t1(i) && w(i) == norm * w1(i)
    {
      DirectRowScales(img, x, y, r, norm, w2, i);
    }
    DirectWeightPositive(r, 1.0, w2);
    DirectWeightPositive(r, norm, w2);
    SumRatioScale(lo, hi, t1, t, w1, w, norm);
  }

  lemma PassTermBetween(img: (int, int) -> real, direction: int, x: int, y: int, norm: real, w1: int -> real,
                        m: real, M: real, k: int)
    requires norm > 0.0 && w1(k) > 0.0
    requires m <= img(x + OffsetX(direction, k), y + OffsetY(direction, k)) <= M
    ensures m * PassWeight(norm, w1)(k) <= PassTerm(img, direction, x, y, norm, w1)(k) <= M * PassWeight(norm, w1)(k)
  {
    ScaleBounds(norm * w1(k), img(x + OffsetX(direction, k), y + OffsetY(direction, k)), m, M);
  }

  /** Each 1-D output is a convex combination of the texels it reads: it lies between their bounds. */
  lemma PassConvex(img: (int, int) -> real, direction: int, x: int, y: int, r: int, norm: real, w1: int -> real,
                   m: real, M: real)
    requires r >= 0 && norm > 0.0 && Positive1(w1, r)
    requires forall k :: InWindow(r, k) ==> m <= img(x + OffsetX(direction, k), y + OffsetY(direction, k)) <= M
    ensures m <= PassChannel(img, direction, x, y, r, norm, w1) <= M
  {
    var lo, hi := -r, r + 1;
    var w := PassWeight(norm, w1);
    var u := PassTerm(img, direction, x, y, norm, w1);
    forall k | lo <= k < hi
      ensures m * w(k) <= u(k) <= M * w(k)
    {
      assert InWindow(r, k);
      PassTermBetween(img, direction, x, y, norm, w1, m, M, k);
    }
    PassWeightPositive(r, norm, w1);
    SumRatioBetween(lo, hi, w, u, m, M);
  }

  lemma DirectTermBetween(img: (int, int) -> real, x: int, y: int, norm: real, w2: (int, int) -> real,
                          m: real, M: real, i: int, j: int)
    requires norm > 0.0 && w2(i, j) > 0.0
    requires m <= img(x + i, y + j) <= M
    ensures m * RowOf(DirectWeight(norm, w2), i)(j) <= RowOf(DirectTerm(img, x, y, norm, w2), i)(j)
         <= M * RowOf(DirectWeight(norm, w2), i)(j)
  {
    ScaleBounds(norm * w2(i, j), img(x + i, y + j), m, M);
  }

  lemma DirectRowTermsBetween(img: (int, int) -> real, x: int, y: int, r: int, norm: real, w2: (int, int) -> real,
                              m: real, M: real, i: int)
    requires r >= 0 && norm > 0.0 && Positive2(w2, r) && InWindow(r, i)
    requires forall u, v :: InWindow(r, u - x) && InWindow(r, v - y) ==> m <= img(u, v) <= M
    ensures forall j :: -r <= j < r + 1 ==>
      m * RowOf(DirectWeight(norm, w2), i)(j) <= RowOf(DirectTerm(img, x, y, norm, w2), i)(j)
        <= M * RowOf(DirectWeight(norm, w2), i)(j)
  {
    forall j | -r <= j < r + 1
      ensures m * RowOf(DirectWeight(norm, w2), i)(j) <= RowOf(DirectTerm(img, x, y, norm, w2), i)(j)
           <= M * RowOf(DirectWeight(norm, w2), i)(j)
    {
      assert InWindow(r, j);
      DirectTermBetween(img, x, y, norm, w2, m, M, i, j);
    }
  }

  lemma DirectRowBounds(img: (int, int) -> real, x: int, y: int, r: int, norm: real, w2: (int, int) -> real,
                        m: real, M: real, i: int)
    requires r >= 0 && norm > 0.0 && Positive2(w2, r) && InWindow(r, i)
    requires forall u, v :: InWindow(r, u - x) && InWindow(r, v - y) ==> m <= img(u, v) <= M
    ensures m * RowSums(DirectWeight(norm, w2), -r, r + 1)(i)
         <= RowSums(DirectTerm(img, x, y, norm, w2), -r, r + 1)(i)
         <= M * RowSums(DirectWeight(norm, w2), -r, r + 1)(i)
  {
    DirectRowTermsBetween(img, x, y, r, norm, w2, m, M, i);
    RowSandwich(DirectWeight(norm, w2), DirectTerm(img, x, y, norm, w2), -r, r + 1, i, m, M);
  }

  /** Each direct output is a convex combination of the texels of its window. */
  lemma DirectConvex(img: (int, int) -> real, x: int, y: int, r: int, norm: real, w2: (int, int) -> real,
                     m: real, M: real)
    requires r >= 0 && norm > 0.0 && Positive2(w2, r)
    requires forall u, v :: InWindow(r, u - x) && InWindow(r, v - y) ==> m <= img(u, v) <= M
    ensures m <= DirectChannel(img, x, y, r, norm, w2) <= M
  {
    var lo, hi := -r, r + 1;
    var w := RowSums(DirectWeight(norm, w2), lo, hi);
    var u := RowSums(DirectTerm(img, x, y, norm, w2), lo, hi);
    forall i | lo <= i < hi
      ensures m * w(i) <= u(i) <= M * w(i)
    {
      assert InWindow(r, i);
      DirectRowBounds(img, x, y, r, norm, w2, m, M, i);
    }
    DirectWeightPositive(r, norm, w2);
    SumRatioBetween(lo, hi, w, u, m, M);
  }

  /** A constant window blurs to that constant, in either kernel. */
  lemma ConstantWindow(img: (int, int) -> real, x: int, y: int, r: int, norm: real,
                       w1: int -> real, w2: (int, int) -> real, v: real)
    requires r >= 0 && norm > 0.0 && Positive1(w1, r) && Positive2(w2, r)
    requires forall u, w :: InWindow(r, u - x) && InWindow(r, w - y) ==> img(u, w) == v
    ensures DirectChannel(img, x, y, r, norm, w2) == v
    ensures PassChannel(img, 0, x, y, r, norm, w1) == v
    ensures PassChannel(img, 1, x, y, r, norm, w1) == v
  {
    DirectConvex(img, x, y, r, norm, w2, v, v);
    forall k | InWindow(r, k)
      ensures img(x + OffsetX(0, k), y + OffsetY(0, k)) == v
      ensures img(x + OffsetX(1, k), y + OffsetY(1, k)) == v
    {
      assert InWindow(r, 0);
      assert img(x + k, y + 0) == v;
      assert img(x + 0, y + k) == v;
    }
    PassConvex(img, 0, x, y, r, norm, w1, v, v);
    PassConvex(img, 1, x, y, r, norm, w1, v, v);
  }

  /** The direct output depends on the texels of its window only. */
  lemma DirectReadsWindow(img1: (int, int) -> real, img2: (int, int) -> real, x: int, y: int,
                          r: int, norm: real, w2: (int, int) -> real)
    requires r >= 0 && norm > 0.0 && Positive2(w2, r)
    requires forall u, v :: InWindow(r, u - x) && InWindow(r, v - y) ==> img1(u, v) == img2(u, v)
    ensures DirectChannel(img1, x, y, r, norm, w2) == DirectChannel(img2, x, y, r, norm, w2)
  {
    var lo, hi := -r, r + 1;
    var t1 := DirectTerm(img1, x, y, norm, w2);
    var t2 := DirectTerm(img2, x, y, norm, w2);
    forall i | lo <= i < hi
      ensures RowSums(t1, lo, hi)(i) == RowSums(t2, lo, hi)(i)
    {
      forall j | lo <= j < hi
        ensures RowOf(t1, i)(j) == RowOf(t2, i)(j)
      {
        assert InWindow(r, i) && InWindow(r, j);
      }
      SumExt(lo, hi, RowOf(t1, i), RowOf(t2, i));
    }
    SumExt(lo, hi, RowSums(t1, lo, hi), RowSums(t2, lo, hi));
  }

  /** The 1-D output depends on the texels its pass reads only. */
  lemma PassReadsWindow(img1: (int, int) -> real, img2: (int, int) -> real, direction: int, x: int, y: int,
                        r: int, norm: real, w1: int -> real)
    requires r >= 0 && norm > 0.0 && Positive1(w1, r)
    requires forall k :: InWindow(r, k) ==>
      img1(x + OffsetX(direction, k), y + OffsetY(direction, k)) == img2(x + OffsetX(direction, k), y + OffsetY(direction, k))
    ensures PassChannel(img1, direction, x, y, r, norm, w1) == PassChannel(img2, direction, x, y, r, norm, w1)
  {
    var lo, hi := -r, r + 1;
    forall k | lo <= k < hi
      ensures PassTerm(img1, direction, x, y, norm, w1)(k) == PassTerm(img2, direction, x, y, norm, w1)(k)
    {
      assert InWindow(r, k);
    }
    SumExt(lo, hi, PassTerm(img1, direction, x, y, norm, w1), PassTerm(img2, direction, x, y, norm, w1));
  }

  // ---------------------------------------------------------------------------
  // Two passes equal one, for any separable weight
  // ---------------------------------------------------------------------------

  /** Sum over (i, j) of w1(i) w1(j) is the square of the 1-D weight sum. */
  lemma DirectWeightSumIsSquare(r: int, w1: int -> real, w2: (int, int) -> real)
    requires r >= 0 && Positive1(w1, r) && Separable(w1, w2, r)
    ensures Positive2(w2, r)
    ensures DirectWeightSum(r, 1.0, w2) == PassWeightSum(r, 1.0, w1) * PassWeightSum(r, 1.0, w1)
  {
    SeparablePositive(w1, w2, r);
    var lo, hi := -r, r + 1;
    var w := DirectWeight(1.0, w2);
    var g := PassWeight(1.0, w1);
    var G := PassWeightSum(r, 1.0, w1);
    forall i | lo <= i < hi
      ensures RowSums(w, lo, hi)(i) == G * g(i)
    {
      forall j | lo <= j < hi
        ensures RowOf(w, i)(j) == g(i) * g(j)
      {
        assert InWindow(r, i) && InWindow(r, j);
      }
      SumScale(lo, hi, g, g(i), RowOf(w, i));
    }
    SumScale(lo, hi, g, G, RowSums(w, lo, hi));
  }

  /** The unnormalised horizontal pass on row y + j, as a function of j. */
  function HorizontalNumerators(img: (int, int) -> real, x: int, y: int, r: int, w1: int -> real): int -> real {
    j => Sum(-r, r + 1, PassTerm(img, 0, x, y + j, 1.0, w1))
  }

  /** Column j of the direct numerator is w1(j) times the horizontal pass's numerator on row y + j. */
  lemma DirectColumnIsHorizontalPass(img: (int, int) -> real, x: int, y: int, r: int,
                                     w1: int -> real, w2: (int, int) -> real, j: int)
    requires r >= 0 && Separable(w1, w2, r) && InWindow(r, j)
    ensures ColSums(DirectTerm(img, x, y, 1.0, w2), -r, r + 1)(j) == w1(j) * HorizontalNumerators(img, x, y, r, w1)(j)
  {
    var lo, hi := -r, r + 1;
    var t := DirectTerm(img, x, y, 1.0, w2);
    var h := PassTerm(img, 0, x, y + j, 1.0, w1);
    forall i | lo <= i < hi
      ensures ColOf(t, j)(i) == w1(j) * h(i)
    {
      assert InWindow(r, i);
      var v := img(x + i, y + j);
      assert h(i) == 1.0 * w1(i) * v;
      assert ColOf(t, j)(i) == 1.0 * (w1(i) * w1(j)) * v;
      Rearrange(w1(i), w1(j), v);
    }
    SumScale(lo, hi, h, w1(j), ColOf(t, j));
    assert ColSums(t, lo, hi)(j) == Sum(lo, hi, ColOf(t, j));
    assert HorizontalNumerators(img, x, y, r, w1)(j) == Sum(lo, hi, h);
  }

  /** Term j of the vertical pass, written out. */
  lemma VerticalTermAt(work: (int, int) -> real, x: int, y: int, w1: int -> real, j: int)
    ensures PassTerm(work, 1, x, y, 1.0, w1)(j) == 1.0 * w1(j) * work(x, y + j)
  {
    assert x + OffsetX(1, j) == x;
  }

  /** Column x of a channel from row y down, as a function of the offset j. */
  function ColumnFrom(img: (int, int) -> real, x: int, y: int): int -> real {
    j => img(x, y + j)
  }

  /**
   * Summing terms a(j) U(j) where U(j) = H(j) / g gives the sum of a(j) H(j)
   * over g: the vertical pass over normalised horizontal values.
   */
  lemma SumOfScaledRatios(lo: int, hi: int, v: int -> real, a: int -> real, U: int -> real, H: int -> real,
                          C: int -> real, g: real)
    requires g != 0.0
    requires forall j :: lo <= j < hi ==> v(j) == 1.0 * a(j) * U(j)
    requires forall j :: lo <= j < hi ==> U(j) == H(j) / g
    requires forall j :: lo <= j < hi ==> C(j) == a(j) * H(j)
    ensures Sum(lo, hi, v) == (1.0 / g) * Sum(lo, hi, C)
  {
    forall j | lo <= j < hi
      ensures v(j) == (1.0 / g) * C(j)
    {
      MulDiv(v(j), a(j), H(j), g, C(j));
    }
    SumScale(lo, hi, C, 1.0 / g, v);
  }

  /**
   * Row y + j of the working channel holds the normalised horizontal value,
   * and column j of the direct numerator is w1(j) times its numerator.
   */
  lemma VerticalTermIsColumn(img: (int, int) -> real, work: (int, int) -> real, x: int, y: int, r: int,
                             normPass: real, w1: int -> real, w2: (int, int) -> real, j: int)
    requires r >= 0 && normPass > 0.0 && Positive1(w1, r) && Separable(w1, w2, r) && InWindow(r, j)
    requires ColumnFrom(work, x, y)(j) == PassChannel(img, 0, x, y + j, r, normPass, w1)
    ensures PassTerm(work, 1, x, y, 1.0, w1)(j) == 1.0 * w1(j) * ColumnFrom(work, x, y)(j)
    ensures ColumnFrom(work, x, y)(j) == HorizontalNumerators(img, x, y, r, w1)(j) / PassWeightSum(r, 1.0, w1)
    ensures ColSums(DirectTerm(img, x, y, 1.0, w2), -r, r + 1)(j) == w1(j) * HorizontalNumerators(img, x, y, r, w1)(j)
  {
    VerticalTermAt(work, x, y, w1, j);
    PassNormCancels(img, 0, x, y + j, r, normPass, w1);
    DirectColumnIsHorizontalPass(img, x, y, r, w1, w2, j);
  }

  /** The vertical pass's numerator is the direct numerator's column sums over the 1-D weight sum. */
  lemma VerticalNumeratorIsColumnSums(img: (int, int) -> real, work: (int, int) -> real, x: int, y: int, r: int,
                                      normPass: real, w1: int -> real, w2: (int, int) -> real)
    requires r >= 0 && normPass > 0.0 && Positive1(w1, r) && Separable(w1, w2, r)
    requires forall j {:trigger ColumnFrom(work, x, y)(j)} :: InWindow(r, j) ==> ColumnFrom(work, x, y)(j) == PassChannel(img, 0, x, y + j, r, normPass, w1)
    ensures Sum(-r, r + 1, PassTerm(work, 1, x, y, 1.0, w1))
         == (1.0 / PassWeightSum(r, 1.0, w1)) * Sum(-r, r + 1, ColSums(DirectTerm(img, x, y, 1.0, w2), -r, r + 1))
  {
    var v := PassTerm(work, 1, x, y, 1.0, w1);
    var U := ColumnFrom(work, x, y);
    var H := HorizontalNumerators(img, x, y, r, w1);
    var C := ColSums(DirectTerm(img, x, y, 1.0, w2), -r, r + 1);
    var G := PassWeightSum(r, 1.0, w1);
    forall j | -r <= j < r + 1
      ensures v(j) == 1.0 * w1(j) * U(j) && U(j) == H(j) / G && C(j) == w1(j) * H(j)
    {
      assert InWindow(r, j);
      VerticalTermIsColumn(img, work, x, y, r, normPass, w1, w2, j);
    }
    SumOfScaledRatios(-r, r + 1, v, w1, U, H, C, G);
  }

  /** Swapping the order of the direct double sum over the window. */
  lemma DirectSumSwap(img: (int, int) -> real, x: int, y: int, r: int, w2: (int, int) -> real)
    ensures Sum(-r, r + 1, RowSums(DirectTerm(img, x, y, 1.0, w2), -r, r + 1))
         == Sum(-r, r + 1, ColSums(DirectTerm(img, x, y, 1.0, w2), -r, r + 1))
  {
    SumSwap(-r, r + 1, -r, r + 1, DirectTerm(img, x, y, 1.0, w2));
  }

  /** The last step of the two-pass argument: dividing twice by the 1-D weight sum. */
  lemma VerticalPassDividesTwice(img: (int, int) -> real, work: (int, int) -> real, x: int, y: int, r: int,
                                 normPass: real, w1: int -> real, w2: (int, int) -> real)
    requires r >= 0 && normPass > 0.0 && Positive1(w1, r)
    requires PassChannel(work, 1, x, y, r, normPass, w1) == PassChannel(work, 1, x, y, r, 1.0, w1)
    requires Sum(-r, r + 1, PassTerm(work, 1, x, y, 1.0, w1))
          == (1.0 / PassWeightSum(r, 1.0, w1)) * Sum(-r, r + 1, ColSums(DirectTerm(img, x, y, 1.0, w2), -r, r + 1))
    requires Sum(-r, r + 1, RowSums(DirectTerm(img, x, y, 1.0, w2), -r, r + 1))
          == Sum(-r, r + 1, ColSums(DirectTerm(img, x, y, 1.0, w2), -r, r + 1))
    ensures PassChannel(work, 1, x, y, r, normPass, w1)
         == Sum(-r, r + 1, RowSums(DirectTerm(img, x, y, 1.0, w2), -r, r + 1))
            / (PassWeightSum(r, 1.0, w1) * PassWeightSum(r, 1.0, w1))
  {
    DivTwice(PassChannel(work, 1, x, y, r, normPass, w1), Sum(-r, r + 1, PassTerm(work, 1, x, y, 1.0, w1)),
             Sum(-r, r + 1, ColSums(DirectTerm(img, x, y, 1.0, w2), -r, r + 1)),
             Sum(-r, r + 1, RowSums(DirectTerm(img, x, y, 1.0, w2), -r, r + 1)), PassWeightSum(r, 1.0, w1));
  }

  /** The vertical pass over the horizontal pass is the direct double sum over the squared 1-D weight sum. */
  lemma VerticalPassIsDoubleSum(img: (int, int) -> real, work: (int, int) -> real, x: int, y: int, r: int,
                                normPass: real, w1: int -> real, w2: (int, int) -> real)
    requires r >= 0 && normPass > 0.0 && Positive1(w1, r) && Separable(w1, w2, r)
    requires forall j {:trigger ColumnFrom(work, x, y)(j)} :: InWindow(r, j) ==> ColumnFrom(work, x, y)(j) == PassChannel(img, 0, x, y + j, r, normPass, w1)
    ensures PassChannel(work, 1, x, y, r, normPass, w1)
         == Sum(-r, r + 1, RowSums(DirectTerm(img, x, y, 1.0, w2), -r, r + 1))
            / (PassWeightSum(r, 1.0, w1) * PassWeightSum(r, 1.0, w1))
  {
    VerticalNumeratorIsColumnSums(img, work, x, y, r, normPass, w1, w2);
    DirectSumSwap(img, x, y, r, w2);
    PassNormCancels(work, 1, x, y, r, normPass, w1);
    VerticalPassDividesTwice(img, work, x, y, r, normPass, w1, w2);
  }

  /** The direct kernel is its unnormalised double sum over the squared 1-D weight sum. */
  lemma DirectIsDoubleSum(img: (int, int) -> real, x: int, y: int, r: int, normDirect: real,
                          w1: int -> real, w2: (int, int) -> real)
    requires r >= 0 && normDirect > 0.0 && Positive1(w1, r) && Separable(w1, w2, r)
    ensures Positive2(w2, r)
    ensures DirectChannel(img, x, y, r, normDirect, w2)
         == Sum(-r, r + 1, RowSums(DirectTerm(img, x, y, 1.0, w2), -r, r + 1))
            / (PassWeightSum(r, 1.0, w1) * PassWeightSum(r, 1.0, w1))
  {
    DirectWeightSumIsSquare(r, w1, w2);
    DirectNormCancels(img, x, y, r, normDirect, w2);
  }

  /**
   * When the working channel holds the horizontal pass on every row the
   * vertical pass reads, the vertical pass yields the direct kernel's value
   * for the product weight.
   */
  lemma TwoPassesEqualDirect(img: (int, int) -> real, work: (int, int) -> real, x: int, y: int, r: int,
                             normDirect: real, normPass: real, w1: int -> real, w2: (int, int) -> real)
    requires r >= 0 && normDirect > 0.0 && normPass > 0.0 && Positive1(w1, r) && Separable(w1, w2, r)
    requires forall j {:trigger ColumnFrom(work, x, y)(j)} :: InWindow(r, j) ==> ColumnFrom(work, x, y)(j) == PassChannel(img, 0, x, y + j, r, normPass, w1)
    ensures Positive2(w2, r)
    ensures PassChannel(work, 1, x, y, r, normPass, w1) == DirectChannel(img, x, y, r, normDirect, w2)
  {
    VerticalPassIsDoubleSum(img, work, x, y, r, normPass, w1, w2);
    DirectIsDoubleSum(img, x, y, r, normDirect, w1, w2);
  }

  // ---------------------------------------------------------------------------
  // The Gaussian weights
  // ---------------------------------------------------------------------------

  /** 2 sigma^2 for sigma = r / 3 */
  function TwoSigmaSquared(r: int): (v: real)
    requires r >= 1
    ensures v > 0.0
  {
    var sigma := r as real / 3.0;
    assert sigma > 0.0;
    2.0 * sigma * sigma
  }

  /** The exponent of the 1-D weight of offset d: d^2 / (2 sigma^2), with d^2 taken in integers. */
  function Exponent(r: int, d: int): real
    requires r >= 1
  {
    (d * d) as real / TwoSigmaSquared(r)
  }

  /** The exponent of the direct 2-D weight: dot(offset, offset) / (2 sigma^2), in reals. */
  function Exponent2(r: int, i: int, j: int): real
    requires r >= 1
  {
    ((i as real) * (i as real) + (j as real) * (j as real)) / TwoSigmaSquared(r)
  }

  /** 1-D weight of `blurW` and `blurH`. */
  function Gauss(q: real -> real, r: int): int -> real
    requires r >= 1
  {
    d => q(Exponent(r, d))
  }

  /** 2-D weight of the direct kernel. */
  function Gauss2(q: real -> real, r: int): (int, int) -> real
    requires r >= 1
  {
    (i, j) => q(Exponent2(r, i, j))
  }

  /** exp is positive: every 1-D weight of the window is. */
  ghost predicate PositiveWeights(q: real -> real, r: int)
    requires r >= 1
  {
    forall d :: InWindow(r, d) ==> q(Exponent(r, d)) > 0.0
  }

  /** exp(-(a + b)) = exp(-a) exp(-b), at the exponents of the window. */
  ghost predicate ExpLaw(q: real -> real, r: int)
    requires r >= 1
  {
    forall i, j :: InWindow(r, i) && InWindow(r, j) ==>
      q(Exponent(r, i) + Exponent(r, j)) == q(Exponent(r, i)) * q(Exponent(r, j))
  }

  lemma SquareAsReal(i: int)
    ensures (i * i) as real == (i as real) * (i as real)
  {
  }

  lemma ExponentSplits(r: int, i: int, j: int)
    requires r >= 1
    ensures Exponent2(r, i, j) == Exponent(r, i) + Exponent(r, j)
  {
    var t := TwoSigmaSquared(r);
    SquareAsReal(i);
    SquareAsReal(j);
    var fi := i as real;
    var fj := j as real;
    assert (fi * fi + fj * fj) / t == (fi * fi) / t + (fj * fj) / t;
  }

  lemma GaussSplitsAt(q: real -> real, r: int, i: int, j: int)
    requires r >= 1 && ExpLaw(q, r) && InWindow(r, i) && InWindow(r, j)
    ensures Gauss2(q, r)(i, j) == Gauss(q, r)(i) * Gauss(q, r)(j)
  {
    ExponentSplits(r, i, j);
    assert Gauss2(q, r)(i, j) == q(Exponent(r, i) + Exponent(r, j));
    assert Gauss(q, r)(i) == q(Exponent(r, i));
    assert Gauss(q, r)(j) == q(Exponent(r, j));
  }

  /** The direct weight depends on i^2 + j^2 only, so it is the product of the two 1-D weights. */
  lemma GaussSeparable(q: real -> real, r: int)
    requires r >= 1 && ExpLaw(q, r)
    ensures Separable(Gauss(q, r), Gauss2(q, r), r)
  {
    forall i, j | InWindow(r, i) && InWindow(r, j)
      ensures Gauss2(q, r)(i, j) == Gauss(q, r)(i) * Gauss(q, r)(j)
    {
      GaussSplitsAt(q, r, i, j);
    }
  }

  lemma GaussPositive(q: real -> real, r: int)
    requires r >= 1 && PositiveWeights(q, r) && ExpLaw(q, r)
    ensures Positive1(Gauss(q, r), r) && Positive2(Gauss2(q, r), r)
  {
    GaussSeparable(q, r);
    SeparablePositive(Gauss(q, r), Gauss2(q, r), r);
  }

  /** The direct weight is unchanged by flipping the sign of either offset or by swapping them. */
  lemma Gauss2Symmetric(q: real -> real, r: int, i: int, j: int)
    requires r >= 1
    ensures Gauss2(q, r)(i, j) == Gauss2(q, r)(-i, j)
    ensures Gauss2(q, r)(i, j) == Gauss2(q, r)(i, -j)
    ensures Gauss2(q, r)(i, j) == Gauss2(q, r)(j, i)
  {
    assert Exponent2(r, i, j) == Exponent2(r, -i, j);
    assert Exponent2(r, i, j) == Exponent2(r, i, -j);
    assert Exponent2(r, i, j) == Exponent2(r, j, i);
  }

  /** The 1-D weight is unchanged by flipping the sign of the offset. */
  lemma GaussSymmetric(q: real -> real, r: int, d: int)
    requires r >= 1
    ensures Gauss(q, r)(d) == Gauss(q, r)(-d)
  {
    assert Exponent(r, d) == Exponent(r, -d);
  }

  // ---------------------------------------------------------------------------
  // The pipelines, texel by texel
  // ---------------------------------------------------------------------------

  /** After normalising, a 4-channel format has its alpha forced to 1. */
  function Finish(channels: int, c: int, v: real): real {
    if channels == 4 && c == 3 then 1.0 else v
  }

  function Channels(format: string): int
    requires TextureMetadata.Lookup(format).Some?
  {
    TextureMetadata.Lookup(format).value.channelsCount
  }

  /** The direct pipeline's output: one pass over a texture of the input's size. */
  function DirectBlur(format: string, input: Plane, outside: (int, int, int) -> real,
                      r: int, norm: real, q: real -> real): (out: Plane)
    requires TextureMetadata.Lookup(format).Some?
    requires r >= 1 && norm > 0.0 && PositiveWeights(q, r) && ExpLaw(q, r)
    ensures out.width == input.width && out.height == input.height
    ensures Channels(format) == 4 ==> forall x, y :: out.texel(x, y, 3) == 1.0
  {
    GaussPositive(q, r);
    Plane(input.width, input.height,
      (x, y, c) => Finish(Channels(format), c, DirectChannel(ChannelOf(input, outside, c), x, y, r, norm, Gauss2(q, r))))
  }

  /** The working texture: the horizontal pass over every texel of a texture of size `ww` x `wh`. */
  function WorkingPlane(format: string, input: Plane, outside: (int, int, int) -> real, ww: int, wh: int,
                        r: int, norm: real, q: real -> real): (w: Plane)
    requires TextureMetadata.Lookup(format).Some?
    requires r >= 1 && norm > 0.0 && PositiveWeights(q, r) && ExpLaw(q, r)
    ensures w.width == ww && w.height == wh
    ensures Channels(format) == 4 ==> forall x, y :: w.texel(x, y, 3) == 1.0
  {
    GaussPositive(q, r);
    Plane(ww, wh,
      (x, y, c) => Finish(Channels(format), c, PassChannel(ChannelOf(input, outside, c), 0, x, y, r, norm, Gauss(q, r))))
  }

  /**
   * The separable pipeline's output: the vertical pass reads the working
   * texture (`outsideWorking` for its out-of-range reads) and writes a
   * texture of the input's size.
   */
  function SeparableBlur(format: string, input: Plane, outsideInput: (int, int, int) -> real,
                         ww: int, wh: int, outsideWorking: (int, int, int) -> real,
                         r: int, norm: real, q: real -> real): (out: Plane)
    requires TextureMetadata.Lookup(format).Some?
    requires r >= 1 && norm > 0.0 && PositiveWeights(q, r) && ExpLaw(q, r)
    ensures out.width == input.width && out.height == input.height
    ensures Channels(format) == 4 ==> forall x, y :: out.texel(x, y, 3) == 1.0
  {
    GaussPositive(q, r);
    Plane(input.width, input.height,
      (x, y, c) => Finish(Channels(format), c,
        PassChannel(ChannelOf(WorkingPlane(format, input, outsideInput, ww, wh, r, norm, q), outsideWorking, c),
                    1, x, y, r, norm, Gauss(q, r))))
  }

  /**
   * On a texel whose window lies inside the input, every colour channel of
   * the direct pipeline's output lies between the least and the greatest
   * value of that channel in the window.
   */
  lemma DirectBlurBounded(format: string, input: Plane, outside: (int, int, int) -> real,
                          r: int, norm: real, q: real -> real, x: int, y: int, c: int, m: real, M: real)
    requires TextureMetadata.Lookup(format).Some?
    requires r >= 1 && norm > 0.0 && PositiveWeights(q, r) && ExpLaw(q, r)
    requires r <= x < input.width - r && r <= y < input.height - r
    requires 0 <= c < Channels(format) && !(Channels(format) == 4 && c == 3)
    requires forall u, v :: InWindow(r, u - x) && InWindow(r, v - y) ==> m <= input.texel(u, v, c) <= M
    ensures m <= DirectBlur(format, input, outside, r, norm, q).texel(x, y, c) <= M
  {
    GaussPositive(q, r);
    var img := ChannelOf(input, outside, c);
    forall u, v | InWindow(r, u - x) && InWindow(r, v - y)
      ensures m <= img(u, v) <= M
    {
      assert img(u, v) == input.texel(u, v, c);
    }
    DirectConvex(img, x, y, r, norm, Gauss2(q, r), m, M);
  }

  /**
   * On a texel whose window lies inside the input, and with a working
   * texture at least as large as the input, the separable pipeline produces
   * the direct pipeline's value in every channel.
   */
  lemma SeparableMatchesDirect(format: string, input: Plane, outsideInput: (int, int, int) -> real,
                               ww: int, wh: int, outsideWorking: (int, int, int) -> real,
                               r: int, normDirect: real, normPass: real, q: real -> real,
                               x: int, y: int, c: int)
    requires TextureMetadata.Lookup(format).Some?
    requires r >= 1 && normDirect > 0.0 && normPass > 0.0 && PositiveWeights(q, r) && ExpLaw(q, r)
    requires ww >= input.width && wh >= input.height
    requires r <= x < input.width - r && r <= y < input.height - r
    requires 0 <= c < Channels(format)
    ensures SeparableBlur(format, input, outsideInput, ww, wh, outsideWorking, r, normPass, q).texel(x, y, c)
         == DirectBlur(format, input, outsideInput, r, normDirect, q).texel(x, y, c)
  {
    var n := Channels(format);
    if !(n == 4 && c == 3) {
      GaussPositive(q, r);
      GaussSeparable(q, r);
      var img := ChannelOf(input, outsideInput, c);
      var work := ChannelOf(WorkingPlane(format, input, outsideInput, ww, wh, r, normPass, q), outsideWorking, c);
      forall j | InWindow(r, j)
        ensures ColumnFrom(work, x, y)(j) == PassChannel(img, 0, x, y + j, r, normPass, Gauss(q, r))
      {
      }
      TwoPassesEqualDirect(img, work, x, y, r, normDirect, normPass, Gauss(q, r), Gauss2(q, r));
    }
  }
}

/** Laying an icon over another: alpha blending of 32-bit pixels into the lower image, in place. */
module Blend {

  type Byte = x: nat | x < 256

  datatype Pixel = Pixel(red: Byte, green: Byte, blue: Byte, alpha: Byte)

  datatype Image = Image(width: nat, height: nat, rows: seq<seq<Pixel>>) {
    ghost predicate Valid() {
      |rows| == height && forall r | r in rows :: |r| == width
    }
  }

  const M := 255

  /** uchar(n / d) */
  function Cast(n: nat, d: nat): Byte
    requires d > 0
  {
    n / d % 256
  }

  function Sum(x: nat, a: nat, y: nat, b: nat): nat {
    x * a + y * b
  }

  /** How much the lower pixel counts, in 255ths of 255. */
  function Rest(u: Byte, l: Byte): (b: nat)
    ensures u == 255 || l == 0 ==> b == 0
  {
    l * (M - u)
  }

  /** What the loop body writes for an upper pixel that is not fully transparent. */
  function Over(u: Pixel, l: Pixel): Pixel
    requires u.alpha > 0
  {
    var a, b := u.alpha * M, Rest(u.alpha, l.alpha);
    var d := a + b;
    Pixel(Cast(Sum(u.red, a, l.red, b), d), Cast(Sum(u.green, a, l.green, b), d),
          Cast(Sum(u.blue, a, l.blue, b), d), Cast(Sum(u.alpha, a, l.alpha, b), d))
  }

  predicate Between(x: int, y: int, z: int) {
    x <= z <= y || y <= z <= x
  }

  /** n / d lies between lo and hi. */
  ghost predicate Within(n: nat, d: nat, lo: nat, hi: nat) {
    lo * d <= n <= hi * d
  }

  /** A quotient that lies between two bytes comes out of the cast unchanged. */
  lemma CastExact(n: nat, d: nat, lo: nat, hi: nat)
    requires d > 0 && Within(n, d, lo, hi) && hi < 256
    ensures lo <= Cast(n, d) <= hi && Cast(n, d) == n / d
  {
    QuotientBetween(n, d, lo, hi);
  }

  /** A weighted mean, rounded down, lies between its two values; the cast to eight bits changes nothing. */
  lemma MeanIsBetween(x: Byte, a: nat, y: Byte, b: nat)
    requires a + b > 0
    ensures Between(x, y, Cast(Sum(x, a, y, b), a + b))
    ensures Cast(Sum(x, a, y, b), a + b) == Sum(x, a, y, b) / (a + b)
    ensures b == 0 ==> Cast(Sum(x, a, y, b), a + b) == x
  {
    var lo, hi := if x <= y then x else y, if x <= y then y else x;
    hide Cast, Sum, Within;
    Weigh(lo, x, y, hi, a, b);
    CastExact(Sum(x, a, y, b), a + b, lo, hi);
    if b == 0 {
      Alone(x, a, y, b);
      CastExact(Sum(x, a, y, b), a + b, x, x);
    }
  }

  lemma Alone(x: nat, a: nat, y: nat, b: nat)
    requires b == 0
    ensures Within(Sum(x, a, y, b), a + b, x, x)
  {
  }

  lemma Distribute(x: nat, a: nat, b: nat)
    ensures x * (a + b) == x * a + x * b
  {
  }

  lemma Monotone(x: nat, y: nat, a: nat)
    requires x <= y
    ensures x * a <= y * a
  {
  }

  lemma Weigh(lo: nat, x: nat, y: nat, hi: nat, a: nat, b: nat)
    requires lo <= x <= hi && lo <= y <= hi
    ensures Within(Sum(x, a, y, b), a + b, lo, hi)
  {
    Distribute(lo, a, b);
    Distribute(hi, a, b);
    Monotone(lo, x, a);
    Monotone(x, hi, a);
    Monotone(lo, y, b);
    Monotone(y, hi, b);
  }

  lemma QuotientBetween(n: nat, d: nat, lo: nat, hi: nat)
    requires d > 0 && lo * d <= n <= hi * d
    ensures lo <= n / d <= hi
  {
    var q := n / d;
    assert n == d * q + n % d;
    assert q < lo ==> d * (q + 1) <= d * lo;
    assert q > hi ==> d * q >= d * (hi + 1);
  }

  /** Nothing in the arithmetic of a channel leaves a 32-bit int. */
  lemma FitsInt(x: Byte, u: Byte, y: Byte, l: Byte)
    ensures u * M + Rest(u, l) <= 65025
    ensures Sum(x, u * M, y, Rest(u, l)) <= 16581375 < 0x8000_0000
  {
    Monotone(l, M, M - u);
    Weigh(0, x, y, M, u * M, Rest(u, l));
    Monotone(u * M + Rest(u, l), 65025, M);
  }

  /** Every channel of the result, alpha included, lies between the two sources; the extremes are exact. */
  lemma OverIsBetween(u: Pixel, l: Pixel)
    requires u.alpha > 0
    ensures var o := Over(u, l);
            && Between(u.red, l.red, o.red) && Between(u.green, l.green, o.green)
            && Between(u.blue, l.blue, o.blue) && Between(u.alpha, l.alpha, o.alpha)
    ensures u.alpha == 255 || l.alpha == 0 ==> Over(u, l) == u
    ensures u == l ==> Over(u, l) == u
  {
    var a, b := u.alpha * M, Rest(u.alpha, l.alpha);
    MeanIsBetween(u.red, a, l.red, b);
    MeanIsBetween(u.green, a, l.green, b);
    MeanIsBetween(u.blue, a, l.blue, b);
    MeanIsBetween(u.alpha, a, l.alpha, b);
    hide Cast, Rest, Sum;
  }

  /**
    Each channel of the result is the mean of the two, rounded down, in which the upper pixel weighs its
    opacity and the lower one its own opacity times what the upper lets through.
   */
  lemma OverIsMean(u: Pixel, l: Pixel)
    requires u.alpha > 0
    ensures var o, a, b := Over(u, l), u.alpha * 255, l.alpha * (255 - u.alpha);
            && o.red * (a + b) <= u.red * a + l.red * b < (o.red + 1) * (a + b)
            && o.green * (a + b) <= u.green * a + l.green * b < (o.green + 1) * (a + b)
            && o.blue * (a + b) <= u.blue * a + l.blue * b < (o.blue + 1) * (a + b)
            && o.alpha * (a + b) <= u.alpha * a + l.alpha * b < (o.alpha + 1) * (a + b)
  {
    var a, b := u.alpha * M, Rest(u.alpha, l.alpha);
    MeanRounded(u.red, a, l.red, b);
    MeanRounded(u.green, a, l.green, b);
    MeanRounded(u.blue, a, l.blue, b);
    MeanRounded(u.alpha, a, l.alpha, b);
    hide Cast, Sum;
  }

  lemma MeanRounded(x: Byte, a: nat, y: Byte, b: nat)
    requires a + b > 0
    ensures var c := Cast(Sum(x, a, y, b), a + b); c * (a + b) <= x * a + y * b < (c + 1) * (a + b)
  {
    MeanIsBetween(x, a, y, b);
    hide Cast;
    var n, d := Sum(x, a, y, b), a + b;
    assert n == d * (n / d) + n % d;
    Distribute(d, n / d, 1);
  }

  predicate Overlaps(upper: Image, width: nat, height: nat, x: int, y: int, row: int, column: int) {
    && upper.width > 0 && upper.height > 0 && width > 0 && height > 0
    && 0 <= x < width && 0 <= y < height
    && y <= row < y + upper.height && row < height
    && x <= column < x + upper.width && column < width
  }

  /** What the pixel at (row, column) of the lower image should become. */
  ghost function Laid(upper: Image, width: nat, height: nat, x: int, y: int, row: int, column: int, l: Pixel): Pixel
    requires upper.Valid()
  {
    if Overlaps(upper, width, height, x, y, row, column) && upper.rows[row - y][column - x].alpha > 0
    then Over(upper.rows[row - y][column - x], l)
    else l
  }

  /** blendOnLower; lower is indexed by row and column. */
  method BlendOnLower(upper: Image, lower: array2<Pixel>, x: int, y: int)
    requires upper.Valid()
    modifies lower
    ensures forall r, c | 0 <= r < lower.Length0 && 0 <= c < lower.Length1 ::
              lower[r, c] == Laid(upper, lower.Length1, lower.Length0, x, y, r, c, old(lower[r, c]))
  {
    if upper.width <= 0 || upper.height <= 0 { return; }
    if lower.Length1 <= 0 || lower.Length0 <= 0 { return; }
    if x < 0 || x >= lower.Length1 { return; }
    if y < 0 || y >= lower.Length0 { return; }
    var cw := if upper.width + x <= lower.Length1 then upper.width + x else lower.Length1;
    var ch := if upper.height + y <= lower.Length0 then upper.height + y else lower.Length0;
    for j := y to ch
      invariant forall r, c | 0 <= r < lower.Length0 && 0 <= c < lower.Length1 ::
        lower[r, c] == if r < j then Laid(upper, lower.Length1, lower.Length0, x, y, r, c, old(lower[r, c]))
                       else old(lower[r, c])
    {
      BlendRow(upper, lower, x, y, j, cw);
    }
  }

  /** The inner loop: one row of the overlap. */
  method BlendRow(upper: Image, lower: array2<Pixel>, x: nat, y: nat, j: nat, cw: nat)
    requires upper.Valid() && upper.width > 0 && x < lower.Length1 && y <= j < lower.Length0 && j < y + upper.height
    requires x <= cw && cw == if upper.width + x <= lower.Length1 then upper.width + x else lower.Length1
    modifies lower
    ensures forall r, c | 0 <= r < lower.Length0 && 0 <= c < lower.Length1 ::
              lower[r, c] == if r == j then Laid(upper, lower.Length1, lower.Length0, x, y, r, c, old(lower[r, c]))
                             else old(lower[r, c])
  {
    hide Over;
    var row := upper.rows[j - y];
    assert row in upper.rows;
    for k := x to cw
      invariant forall c | 0 <= c < lower.Length1 ::
        lower[j, c] == if c < k then Laid(upper, lower.Length1, lower.Length0, x, y, j, c, old(lower[j, c]))
                       else old(lower[j, c])
      invariant forall r, c | 0 <= r < lower.Length0 && 0 <= c < lower.Length1 && r != j ::
        lower[r, c] == old(lower[r, c])
    {
      var u := row[k - x];
      if u.alpha == 0 { continue; }
      lower[j, k] := Over(u, lower[j, k]);
    }
  }

  /** Pixels outside the upper image, or under a transparent pixel of it, stay; opaque pixels replace. */
  lemma LaidMeans(upper: Image, width: nat, height: nat, x: int, y: int, row: int, column: int, l: Pixel)
    requires upper.Valid()
    ensures var o := Laid(upper, width, height, x, y, row, column, l);
            if !Overlaps(upper, width, height, x, y, row, column) then o == l
            else
              var u := upper.rows[row - y][column - x];
              && (u.alpha == 0 ==> o == l)
              && (u.alpha == 255 ==> o == u)
              && (u.alpha > 0 ==> Between(u.red, l.red, o.red) && Between(u.green, l.green, o.green)
                                  && Between(u.blue, l.blue, o.blue) && Between(u.alpha, l.alpha, o.alpha))
  {
    if Overlaps(upper, width, height, x, y, row, column) && upper.rows[row - y][column - x].alpha > 0 {
      OverIsBetween(upper.rows[row - y][column - x], l);
    }
  }

  /**
    The upper image is laid with its corner at column x and row y: each of its opaque pixels that falls on
    the lower image lands there, and no pixel of the lower one changes but those under it. With the corner
    outside the lower image nothing changes.
   */
  lemma LaidWhere(upper: Image, width: nat, height: nat, x: int, y: int, l: Pixel)
    requires upper.Valid()
    ensures forall j, i | 0 <= j < upper.height && 0 <= i < upper.width
              && 0 <= x && x + i < width && 0 <= y && y + j < height && upper.rows[j][i].alpha == 255 ::
              Laid(upper, width, height, x, y, y + j, x + i, l) == upper.rows[j][i]
    ensures forall row, column | row < y || row >= y + upper.height || column < x || column >= x + upper.width ::
              Laid(upper, width, height, x, y, row, column, l) == l
    ensures x < 0 || y < 0 || x >= width || y >= height ==>
              forall row, column :: Laid(upper, width, height, x, y, row, column, l) == l
  {
    forall j, i | 0 <= j < upper.height && 0 <= i < upper.width
      && 0 <= x && x + i < width && 0 <= y && y + j < height && upper.rows[j][i].alpha == 255
      ensures Laid(upper, width, height, x, y, y + j, x + i, l) == upper.rows[j][i]
    {
      OverIsBetween(upper.rows[j][i], l);
    }
  }
}

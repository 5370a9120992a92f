/** The history page: point colours by stored status, the table's status
    class, the chart's background bands, and the least-squares trendline. */
module Historial {
  import opened Util
  import Device

  const Orange := "#f39c12"
  const Green := "#2ecc71"
  const Red := "#e74c3c"
  const Grey := "#95a5a6"

  /** Chart point colour for a stored status label; unknown labels are grey. */
  function StatusColor(estatus: string): (r: string)
    ensures r == Red <==> estatus == "Falla Baja" || estatus == "Falla Alta"
    ensures r == Orange <==> estatus == "Baja" || estatus == "Alta"
    ensures r == Green <==> estatus == "Normal"
    ensures r == Grey <==> estatus !in Device.BandLabels
  {
    if estatus == "Baja" then Orange
    else if estatus == "Normal" then Green
    else if estatus == "Alta" then Orange
    else if estatus == "Falla Baja" then Red
    else if estatus == "Falla Alta" then Red
    else Grey
  }

  // ----- status class of a table row -----

  /** Position of the first occurrence of `c` in `s`. */
  function FirstIndex(s: string, c: char): (k: nat)
    requires c in s
    ensures k < |s| && s[k] == c && c !in s[..k]
  {
    if s[0] == c then 0 else 1 + FirstIndex(s[1..], c)
  }

  /** `s.replace(from, to)` with a one-character pattern. */
  function ReplaceFirst(s: string, from: char, to: char): (r: string)
    ensures |r| == |s|
  {
    if s == [] then []
    else if s[0] == from then [to] + s[1..]
    else [s[0]] + ReplaceFirst(s[1..], from, to)
  }

  /** Only the first occurrence of the pattern is replaced; without one the
      string is unchanged. */
  lemma {:induction false} ReplaceFirstOnlyFirst(s: string, from: char, to: char)
    ensures from !in s ==> ReplaceFirst(s, from, to) == s
    ensures from in s ==>
      ReplaceFirst(s, from, to) == s[..FirstIndex(s, from)] + [to] + s[FirstIndex(s, from) + 1..]
  {
    if s != [] && s[0] != from {
      ReplaceFirstOnlyFirst(s[1..], from, to);
      if from in s {
        assert from in s[1..];
        var k := FirstIndex(s[1..], from);
        assert s[..k + 1] == [s[0]] + s[1..][..k];
        assert s[k + 2..] == s[1..][k + 1..];
      } else {
        assert from !in s[1..];
      }
    }
  }

  /** Class of the status cell of a table row: "status-", then the label in
      lower case with its first space turned into a hyphen. */
  function TableStatusClass(estatus: string): (r: string)
    ensures |r| == |"status-"| + |estatus| && r[..|"status-"|] == "status-"
  {
    "status-" + ReplaceFirst(Lower(estatus), ' ', '-')
  }

  lemma {:induction false} FirstIndexAfterWord(w: string, c: char, rest: string)
    requires c !in w
    ensures c in w + [c] + rest && FirstIndex(w + [c] + rest, c) == |w|
  {
    var s := w + [c] + rest;
    assert s[|w|] == c;
    if w != [] {
      assert s[1..] == w[1..] + [c] + rest;
      FirstIndexAfterWord(w[1..], c, rest);
    }
  }

  /** A label whose lower-case form is a word, a space and a rest gets the
      class "status-word-rest". */
  lemma HyphenateTwoWords(estatus: string, w: string, rest: string)
    requires ' ' !in w && Lower(estatus) == w + " " + rest
    ensures TableStatusClass(estatus) == "status-" + w + "-" + rest
  {
    var s := w + " " + rest;
    FirstIndexAfterWord(w, ' ', rest);
    ReplaceFirstOnlyFirst(s, ' ', '-');
    assert s[..|w|] == w;
    assert s[|w| + 1..] == rest;
    assert ReplaceFirst(s, ' ', '-') == w + "-" + rest;
    assert TableStatusClass(estatus) == "status-" + (w + "-" + rest);
  }

  /** A label without a space gets the class "status-" and its lower-case form. */
  lemma OneWordClass(estatus: string, w: string)
    requires ' ' !in w && Lower(estatus) == w
    ensures TableStatusClass(estatus) == "status-" + w
  {
    ReplaceFirstOnlyFirst(w, ' ', '-');
  }

  lemma LowerAppend(a: string, b: string)
    ensures Lower(a + b) == Lower(a) + Lower(b)
  {
    assert forall i :: 0 <= i < |a| ==> (a + b)[i] == a[i];
    assert forall i :: |a| <= i < |a + b| ==> (a + b)[i] == b[i - |a|];
  }

  /** A "Falla" label gets "status-falla-" and its lower-cased level. */
  lemma FallaClass(estatus: string, level: string)
    requires estatus == "Falla " + level
    ensures TableStatusClass(estatus) == "status-falla-" + Lower(level)
  {
    assert estatus == "Falla" + " " + level;
    LowerAppend("Falla" + " ", level);
    LowerAppend("Falla", " ");
    assert Lower("Falla") == "falla";
    assert Lower(" ") == " ";
    HyphenateTwoWords(estatus, "falla", Lower(level));
    assert "status-" + "falla" + "-" + Lower(level) == "status-falla-" + Lower(level);
  }

  lemma FallaBajaClass(estatus: string)
    requires estatus == "Falla Baja"
    ensures TableStatusClass(estatus) == Device.StatusClass(estatus) == "status-falla-baja"
  {
    FallaClass(estatus, "Baja");
    assert Lower("Baja") == "baja";
  }

  lemma FallaAltaClass(estatus: string)
    requires estatus == "Falla Alta"
    ensures TableStatusClass(estatus) == Device.StatusClass(estatus) == "status-falla-alta"
  {
    FallaClass(estatus, "Alta");
    assert Lower("Alta") == "alta";
  }

  lemma OneWordClasses(estatus: string)
    requires estatus == "Baja" || estatus == "Normal" || estatus == "Alta"
    ensures TableStatusClass(estatus) == Device.StatusClass(estatus)
  {
    if estatus == "Baja" {
      assert Lower(estatus) == "baja";
      OneWordClass(estatus, "baja");
    } else if estatus == "Normal" {
      assert Lower(estatus) == "normal";
      OneWordClass(estatus, "normal");
    } else {
      assert Lower(estatus) == "alta";
      OneWordClass(estatus, "alta");
    }
  }

  /** On the five front-end labels the table's class and the lookup of
      `getStatusClass` agree. */
  lemma TableStatusClassMatchesLookup(estatus: string)
    requires estatus in Device.BandLabels
    ensures TableStatusClass(estatus) == Device.StatusClass(estatus)
  {
    if estatus == "Falla Baja" {
      FallaBajaClass(estatus);
    } else if estatus == "Falla Alta" {
      FallaAltaClass(estatus);
    } else {
      OneWordClasses(estatus);
    }
  }

  /** The alert vocabulary's "Muy Alta" gets a class that the lookup does not know. */
  lemma TableStatusClassOfAlertLabel()
    ensures TableStatusClass("Muy Alta") == "status-muy-alta"
    ensures Device.StatusClass("Muy Alta") == "status-normal"
  {
    var estatus := "Muy Alta";
    assert Lower(estatus) == "muy" + " " + "alta";
    HyphenateTwoWords(estatus, "muy", "alta");
  }

  // ----- background bands of the chart's grid -----

  const GridRed := "rgba(231, 76, 60, 0.2)"
  const GridOrange := "rgba(243, 156, 18, 0.2)"
  const GridGreen := "rgba(46, 204, 113, 0.2)"
  const GridDefault := "rgba(0, 0, 0, 0.1)"

  /** Grid line colour at a tick of the pressure axis: the bands of the
      gauge, except that the top band has no upper end. */
  function GridColor(tick: real): (r: string)
    ensures tick < 0.0 <==> r == GridDefault
    ensures tick >= 310.0 ==> r == GridRed
  {
    if tick >= 0.0 && tick < 25.0 then GridRed
    else if tick >= 25.0 && tick < 150.0 then GridOrange
    else if tick >= 150.0 && tick < 250.0 then GridGreen
    else if tick >= 250.0 && tick < 310.0 then GridOrange
    else if tick >= 310.0 then GridRed
    else GridDefault
  }

  /** On the gauge's scale a grid band has the hue that a point with the
      band's label gets; above full scale the grid stays red while the label
      is "Desconocido" and its point grey. */
  lemma GridMatchesPointColours(tick: real)
    ensures 0.0 <= tick <= Device.FullScale ==>
      (GridColor(tick) == GridRed <==> StatusColor(Device.StatusText(tick)) == Red) &&
      (GridColor(tick) == GridOrange <==> StatusColor(Device.StatusText(tick)) == Orange) &&
      (GridColor(tick) == GridGreen <==> StatusColor(Device.StatusText(tick)) == Green)
    ensures tick > Device.FullScale ==> GridColor(tick) == GridRed && StatusColor(Device.StatusText(tick)) == Grey
  {
  }

  // ----- trendline -----

  /** Sum of the values. */
  function Sum(s: seq<real>): real {
    if s == [] then 0.0 else Sum(s[..|s| - 1]) + s[|s| - 1]
  }

  /** Sum of each value times its index. */
  function IndexWeightedSum(s: seq<real>): real {
    if s == [] then 0.0 else IndexWeightedSum(s[..|s| - 1]) + (|s| - 1) as real * s[|s| - 1]
  }

  /** 0 + 1 + ... + (n - 1) */
  function IndexSum(n: nat): real {
    if n == 0 then 0.0 else IndexSum(n - 1) + (n - 1) as real
  }

  /** k², as the sum of the first k odd numbers (a definition whose unfolding
      stays linear). */
  function Square(k: nat): real {
    if k == 0 then 0.0 else Square(k - 1) + 2.0 * k as real - 1.0
  }

  lemma {:induction false} SquareIsProduct(k: nat)
    ensures Square(k) == k as real * k as real
  {
    if k > 0 {
      SquareIsProduct(k - 1);
      var m := (k - 1) as real;
      assert m * m + 2.0 * (m + 1.0) - 1.0 == (m + 1.0) * (m + 1.0);
    }
  }

  /** 0² + 1² + ... + (n - 1)² */
  function IndexSquareSum(n: nat): real {
    if n == 0 then 0.0 else IndexSquareSum(n - 1) + Square(n - 1)
  }

  lemma {:induction false} IndexSumClosedForm(n: nat)
    ensures IndexSum(n) == n as real * (n as real - 1.0) / 2.0
  {
    if n > 0 {
      IndexSumClosedForm(n - 1);
      var m := (n - 1) as real;
      assert n as real == m + 1.0;
      assert m * (m - 1.0) / 2.0 + m == (m + 1.0) * m / 2.0;
    }
  }

  lemma {:induction false} IndexSquareSumClosedForm(n: nat)
    ensures IndexSquareSum(n) == (n as real - 1.0) * n as real * (2.0 * n as real - 1.0) / 6.0
  {
    if n > 0 {
      IndexSquareSumClosedForm(n - 1);
      SquareIsProduct(n - 1);
      var m := (n - 1) as real;
      assert n as real == m + 1.0;
      assert (m - 1.0) * m * (2.0 * m - 1.0) / 6.0 + m * m == m * (m + 1.0) * (2.0 * m + 1.0) / 6.0;
    }
  }

  /** The slope's denominator n·Σx² − (Σx)² over the indices 0..n-1 is
      n²(n²−1)/12: zero for one point. */
  lemma DenominatorClosedForm(n: nat)
    ensures n as real * IndexSquareSum(n) - IndexSum(n) * IndexSum(n)
      == n as real * n as real * (n as real * n as real - 1.0) / 12.0
  {
    IndexSumClosedForm(n);
    IndexSquareSumClosedForm(n);
    var x := n as real;
    assert x * ((x - 1.0) * x * (2.0 * x - 1.0) / 6.0) - (x * (x - 1.0) / 2.0) * (x * (x - 1.0) / 2.0)
      == x * x * (x * x - 1.0) / 12.0;
  }

  /** From two points on, the denominator is positive, so the slope is defined. */
  lemma DenominatorPositive(n: nat)
    requires n >= 2
    ensures n as real * IndexSquareSum(n) - IndexSum(n) * IndexSum(n) > 0.0
  {
    DenominatorClosedForm(n);
    QuarticPositive(n as real);
  }

  lemma QuarticPositive(x: real)
    requires x >= 2.0
    ensures x * x * (x * x - 1.0) / 12.0 > 0.0
  {
    var y := x * x;
    assert y >= 4.0;
    assert y * (y - 1.0) >= 4.0 * (y - 1.0);
  }

  /** The denominator is positive when computed from accumulated sums. */
  lemma AccumulatedDenominatorPositive(n: nat, sx: real, sx2: real)
    requires n >= 2 && sx == IndexSum(n) && sx2 == IndexSquareSum(n)
    ensures n as real * sx2 - sx * sx > 0.0
  {
    DenominatorPositive(n);
  }

  /** Least-squares slope from the count n and the sums Σx, Σx², Σy, Σxy. */
  function SlopeOf(n: real, sx: real, sx2: real, sy: real, sxy: real): real
    requires n * sx2 - sx * sx != 0.0
  {
    (n * sxy - sx * sy) / (n * sx2 - sx * sx)
  }

  /** Least-squares intercept from the count n, Σx, Σy and the slope. */
  function InterceptOf(n: real, sx: real, sy: real, slope: real): real
    requires n != 0.0
  {
    (sy - slope * sx) / n
  }

  function Slope(data: seq<real>): real
    requires |data| >= 2
  {
    DenominatorPositive(|data|);
    SlopeOf(|data| as real, IndexSum(|data|), IndexSquareSum(|data|), Sum(data), IndexWeightedSum(data))
  }

  function Intercept(data: seq<real>): real
    requires |data| >= 2
  {
    InterceptOf(|data| as real, IndexSum(|data|), Sum(data), Slope(data))
  }

  /** The values a + b·i for i = 0..n-1. */
  function Line(a: real, b: real, n: nat): (r: seq<real>)
    ensures |r| == n
  {
    seq(n, i => a + b * i as real)
  }

  /** The least-squares line against the index, evaluated at each index. */
  function Fitted(data: seq<real>): (r: seq<real>)
    requires |data| != 1
    ensures |r| == |data|
  {
    if |data| == 0 then [] else Line(Intercept(data), Slope(data), |data|)
  }

  /** Accumulates Σx, Σy, Σxy and Σx² over the indices in one pass, then
      maps the fitted line back over the indices. With no values the result
      is empty; a single value is excluded because the source divides 0 by 0
      for it. */
  method CalculateTrendline(data: seq<real>) returns (line: seq<real>)
    requires |data| != 1
    ensures line == Fitted(data)
  {
    var n := |data|;
    var sumX, sumY, sumXY, sumX2 := 0.0, 0.0, 0.0, 0.0;
    for index := 0 to n
      invariant sumX == IndexSum(index)
      invariant sumY == Sum(data[..index])
      invariant sumXY == IndexWeightedSum(data[..index])
      invariant sumX2 == IndexSquareSum(index)
    {
      assert data[..index + 1][..index] == data[..index];
      sumX := sumX + index as real;
      sumY := sumY + data[index];
      sumXY := sumXY + index as real * data[index];
      SquareIsProduct(index);
      sumX2 := sumX2 + index as real * index as real;
    }
    assert data[..n] == data;
    assert sumX == IndexSum(n) && sumX2 == IndexSquareSum(n);
    assert sumY == Sum(data) && sumXY == IndexWeightedSum(data);
    if n == 0 {
      // the slope is NaN, but mapping over no values yields no values
      return [];
    }
    AccumulatedDenominatorPositive(n, sumX, sumX2);
    var slope := SlopeOf(n as real, sumX, sumX2, sumY, sumXY);
    var intercept := InterceptOf(n as real, sumX, sumY, slope);
    line := seq(n, index => intercept + slope * index as real);
    assert line == Line(Intercept(data), Slope(data), n);
  }

  lemma {:induction false} LineSum(a: real, b: real, n: nat)
    ensures Sum(Line(a, b, n)) == n as real * a + b * IndexSum(n)
  {
    if n > 0 {
      LineSum(a, b, n - 1);
      assert Line(a, b, n)[..n - 1] == Line(a, b, n - 1);
      var x := (n - 1) as real;
      assert Line(a, b, n)[n - 1] == a + b * x;
      assert x * a + b * IndexSum(n - 1) + (a + b * x) == (x + 1.0) * a + b * (IndexSum(n - 1) + x);
    }
  }

  lemma {:induction false} LineIndexWeightedSum(a: real, b: real, n: nat)
    ensures IndexWeightedSum(Line(a, b, n)) == a * IndexSum(n) + b * IndexSquareSum(n)
  {
    if n > 0 {
      LineIndexWeightedSum(a, b, n - 1);
      SquareIsProduct(n - 1);
      assert Line(a, b, n)[..n - 1] == Line(a, b, n - 1);
      var x := (n - 1) as real;
      assert Line(a, b, n)[n - 1] == a + b * x;
      assert x * (a + b * x) == a * x + b * (x * x);
    }
  }

  /** The two normal equations of least squares hold for the computed slope
      and intercept: n·a + b·Σx = Σy and a·Σx + b·Σx² = Σxy. */
  lemma NormalEquations(n: real, sx: real, sx2: real, sy: real, sxy: real)
    requires n > 0.0 && n * sx2 - sx * sx != 0.0
    ensures var b := SlopeOf(n, sx, sx2, sy, sxy);
      n * InterceptOf(n, sx, sy, b) + b * sx == sy &&
      InterceptOf(n, sx, sy, b) * sx + b * sx2 == sxy
  {
    var d := n * sx2 - sx * sx;
    var b := SlopeOf(n, sx, sx2, sy, sxy);
    var a := InterceptOf(n, sx, sy, b);
    assert b * d == n * sxy - sx * sy;
    assert a * n == sy - b * sx;
    calc {
      n * (a * sx + b * sx2);
      (a * n) * sx + b * (n * sx2);
      (sy - b * sx) * sx + b * (n * sx2);
      sy * sx + b * d;
      n * sxy;
    }
  }

  /** Sums that come from the line a + b·i give back that line's slope and
      intercept. */
  lemma ExactFit(n: real, a: real, b: real, sx: real, sx2: real, sy: real, sxy: real)
    requires n > 0.0 && n * sx2 - sx * sx != 0.0
    requires sy == n * a + b * sx
    requires sxy == a * sx + b * sx2
    ensures SlopeOf(n, sx, sx2, sy, sxy) == b
    ensures InterceptOf(n, sx, sy, b) == a
  {
    assert n * sxy - sx * sy == b * (n * sx2 - sx * sx);
  }

  /** A line whose coefficients satisfy the first normal equation for Σy
      adds up to Σy. */
  lemma LineWithSum(n: nat, a: real, b: real, sy: real)
    requires n as real * a + b * IndexSum(n) == sy
    ensures Sum(Line(a, b, n)) == sy
  {
    LineSum(a, b, n);
  }

  /** A line whose coefficients satisfy the second normal equation for Σxy
      has index-weighted sum Σxy. */
  lemma LineWithIndexWeightedSum(n: nat, a: real, b: real, sxy: real)
    requires a * IndexSum(n) + b * IndexSquareSum(n) == sxy
    ensures IndexWeightedSum(Line(a, b, n)) == sxy
  {
    LineIndexWeightedSum(a, b, n);
  }

  /** The fitted values add up to the data's sum: the line passes through
      the mean point. */
  lemma FittedKeepsSum(data: seq<real>)
    requires |data| >= 2
    ensures Sum(Fitted(data)) == Sum(data)
  {
    var n := |data|;
    DenominatorPositive(n);
    NormalEquations(n as real, IndexSum(n), IndexSquareSum(n), Sum(data), IndexWeightedSum(data));
    LineWithSum(n, Intercept(data), Slope(data), Sum(data));
  }

  /** The second normal equation of least squares: the residuals are
      uncorrelated with the index. */
  lemma FittedKeepsIndexWeightedSum(data: seq<real>)
    requires |data| >= 2
    ensures IndexWeightedSum(Fitted(data)) == IndexWeightedSum(data)
  {
    var n := |data|;
    DenominatorPositive(n);
    NormalEquations(n as real, IndexSum(n), IndexSquareSum(n), Sum(data), IndexWeightedSum(data));
    LineWithIndexWeightedSum(n, Intercept(data), Slope(data), IndexWeightedSum(data));
  }

  /** Data that already lie on a line are their own trendline. */
  lemma FittedExactOnLines(a: real, b: real, n: nat)
    requires n >= 2
    ensures Fitted(Line(a, b, n)) == Line(a, b, n)
  {
    var data := Line(a, b, n);
    var sy, sxy := Sum(data), IndexWeightedSum(data);
    assert sy == n as real * a + b * IndexSum(n) by {
      LineSum(a, b, n);
    }
    assert sxy == a * IndexSum(n) + b * IndexSquareSum(n) by {
      LineIndexWeightedSum(a, b, n);
    }
    DenominatorPositive(n);
    ExactFit(n as real, a, b, IndexSum(n), IndexSquareSum(n), sy, sxy);
  }

  lemma TrendlineExample()
    ensures Fitted([10.0, 20.0, 30.0]) == [10.0, 20.0, 30.0]
  {
    assert Line(10.0, 10.0, 3) == [10.0, 20.0, 30.0];
    FittedExactOnLines(10.0, 10.0, 3);
  }
}

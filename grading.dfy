/** Grade derivation: the percentage of five marks and the division band
    it falls in (`calculatePercentage` and `calculateDivision`). */
module Grading {

  import opened Wrappers

  datatype Division = First | Second | Third | Fail

  /** The option values of the division filter, in the order the source lists them. */
  const Divisions: seq<string> := ["First", "Second", "Third", "Fail"]

  /** The text the source stores and compares for a division. */
  function DivisionName(d: Division): (s: string)
    ensures s in Divisions
  {
    match d
    case First => "First"
    case Second => "Second"
    case Third => "Third"
    case Fail => "Fail"
  }

  /** `parseFloat(m || 0)` for a mark that is already a number: `NaN` is
      falsy and so counts as 0. */
  function MarkValue(m: Option<real>): real
  {
    match m
    case Some(v) => v
    case None => 0.0
  }

  /** The running sum of the `reduce`, added from the left. */
  function Total(marks: seq<Option<real>>): (r: real)
    ensures (forall i :: 0 <= i < |marks| ==> 0.0 <= MarkValue(marks[i])) ==> 0.0 <= r
    decreases |marks|
  {
    if marks == [] then 0.0 else Total(marks[..|marks| - 1]) + MarkValue(marks[|marks| - 1])
  }

  lemma {:induction false} TotalAppend(a: seq<Option<real>>, b: seq<Option<real>>)
    ensures Total(a + b) == Total(a) + Total(b)
    decreases |b|
  {
    if b == [] {
      assert a + b == a;
    } else {
      var b' := b[..|b| - 1];
      assert (a + b)[..|a + b| - 1] == a + b';
      TotalAppend(a, b');
    }
  }

  /** For five marks the total is their plain sum, a missing one counting 0. */
  lemma TotalOfFive(m: seq<Option<real>>)
    requires |m| == 5
    ensures Total(m) == MarkValue(m[0]) + MarkValue(m[1]) + MarkValue(m[2]) + MarkValue(m[3]) + MarkValue(m[4])
  {
    assert m == [m[0]] + [m[1]] + [m[2]] + [m[3]] + [m[4]];
    TotalAppend([m[0]] + [m[1]] + [m[2]] + [m[3]], [m[4]]);
    TotalAppend([m[0]] + [m[1]] + [m[2]], [m[3]]);
    TotalAppend([m[0]] + [m[1]], [m[2]]);
    TotalAppend([m[0]], [m[1]]);
  }

  /** Marks that all lie in [0, 100] add up to at most 100 each. */
  lemma {:induction false} TotalBounds(m: seq<Option<real>>)
    requires forall i :: 0 <= i < |m| ==> m[i].Some? && 0.0 <= m[i].value <= 100.0
    ensures 0.0 <= Total(m) <= 100.0 * |m| as real
    decreases |m|
  {
    if m != [] {
      TotalBounds(m[..|m| - 1]);
    }
  }

  /** `x` has at most two decimal places. */
  predicate IsHundredth(x: real)
  {
    (x * 100.0).Floor as real == x * 100.0
  }

  /** The value of `x.toFixed(2)`: the nearest multiple of 0.01, a tie
      going away from zero. */
  function RoundToHundredths(x: real): (r: real)
    ensures IsHundredth(r)
    ensures 0.0 <= x ==> -0.005 < r - x <= 0.005
    ensures x < 0.0 ==> -0.005 <= r - x < 0.005
    ensures 0.0 <= x <= 100.0 ==> 0.0 <= r <= 100.0
  {
    if x >= 0.0 then
      var n := HalfUp(x * 100.0);
      HundredthsOfInt(n);
      n as real / 100.0
    else
      var n := HalfUp(-x * 100.0);
      HundredthsOfInt(-n);
      -n as real / 100.0
  }

  /** The whole number nearest to a non-negative `y`, a tie going up. */
  function HalfUp(y: real): (n: int)
    requires 0.0 <= y
    ensures 0 <= n
    ensures y - 0.5 < n as real <= y + 0.5
  {
    (y + 0.5).Floor
  }

  lemma HundredthsOfInt(n: int)
    ensures IsHundredth(n as real / 100.0)
  {
    assert n as real / 100.0 * 100.0 == n as real;
  }

  /** `calculatePercentage`: the mean of the marks over five slots, to two decimals. */
  function CalculatePercentage(marks: seq<Option<real>>): (p: real)
    ensures IsHundredth(p)
    ensures 0.0 <= Total(marks) ==> -0.005 < p - Total(marks) / 5.0 <= 0.005
    ensures Total(marks) < 0.0 ==> -0.005 <= p - Total(marks) / 5.0 < 0.005
  {
    RoundToHundredths(Total(marks) / 5.0)
  }

  /** Five marks in [0, 100] give a percentage in [0, 100] within half a
      hundredth of their mean. */
  lemma PercentageOfFive(m: seq<Option<real>>)
    requires |m| == 5
    requires forall i :: 0 <= i < 5 ==> m[i].Some? && 0.0 <= m[i].value <= 100.0
    ensures 0.0 <= CalculatePercentage(m) <= 100.0
    ensures var mean := (m[0].value + m[1].value + m[2].value + m[3].value + m[4].value) / 5.0;
      -0.005 < CalculatePercentage(m) - mean <= 0.005
  {
    TotalOfFive(m);
    TotalBounds(m);
  }

  /** `calculateDivision`: the band the percentage falls in. */
  function CalculateDivision(p: real): (d: Division)
    ensures d == First <==> 60.0 <= p
    ensures d == Second <==> 50.0 <= p < 60.0
    ensures d == Third <==> 40.0 <= p < 50.0
    ensures d == Fail <==> p < 40.0
  {
    if p >= 60.0 then First
    else if p >= 50.0 then Second
    else if p >= 40.0 then Third
    else Fail
  }

  /** A record entered with marks 80, 70, 90, 60, 50 scores 70.00 and a
      First; re-entered with five marks of 30 it scores 30.00 and fails. */
  lemma WorkedExample()
    ensures CalculatePercentage([Some(80.0), Some(70.0), Some(90.0), Some(60.0), Some(50.0)]) == 70.0
    ensures CalculateDivision(70.0) == First
    ensures CalculatePercentage([Some(30.0), Some(30.0), Some(30.0), Some(30.0), Some(30.0)]) == 30.0
    ensures CalculateDivision(30.0) == Fail
  {
    TotalOfFive([Some(80.0), Some(70.0), Some(90.0), Some(60.0), Some(50.0)]);
    TotalOfFive([Some(30.0), Some(30.0), Some(30.0), Some(30.0), Some(30.0)]);
  }
}

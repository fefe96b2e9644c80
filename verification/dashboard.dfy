/** The dashboard's figures: for each of the four score columns, the mean over
    the signed-in user's evaluations (shown to one decimal) and the change
    between the last two of them; and the five most recent evaluations.
    Means are kept as exact (sum, count) pairs. */
module Dashboard {
  import opened Text
  import opened Schema

  datatype Metric = Productivity | Quality | Teamwork | Communication

  function Score(e: Evaluation, m: Metric): int
  {
    match m
    case Productivity => e.productivity
    case Quality => e.quality
    case Teamwork => e.teamwork
    case Communication => e.communication
  }

  function Title(m: Metric): string
  {
    match m
    case Productivity => "Productivity"
    case Quality => "Quality"
    case Teamwork => "Teamwork"
    case Communication => "Communication"
  }

  /** The metric cards, in display order. */
  const Metrics: seq<Metric> := [Productivity, Quality, Teamwork, Communication]

  /** One metric's column. */
  function Values(evals: seq<Evaluation>, m: Metric): (r: seq<int>)
    ensures |r| == |evals|
    ensures forall i :: 0 <= i < |evals| ==> r[i] == Score(evals[i], m)
  {
    if evals == [] then [] else Values(evals[..|evals| - 1], m) + [Score(evals[|evals| - 1], m)]
  }

  /** `reduce((a, b) => a + b, 0)`: a left fold from 0. */
  function Sum(values: seq<int>): int
  {
    if values == [] then 0 else Sum(values[..|values| - 1]) + values[|values| - 1]
  }

  /** `slice(-k)` for k > 0: the last min(k, n) elements. */
  function Last<T>(s: seq<T>, k: nat): (r: seq<T>)
    requires k > 0
    ensures |r| == if |s| < k then |s| else k
    ensures s == s[..|s| - |r|] + r
    ensures forall i :: 0 <= i < |r| ==> r[i] == s[|s| - |r| + i]
  {
    if |s| < k then s else s[|s| - k..]
  }

  /** What a card receives: the mean text and the trend. */
  datatype Summary = Summary(average: string, trend: int)

  /** `calculateMetrics`. */
  function CalculateMetrics(evals: seq<Evaluation>, m: Metric): (r: Summary)
    ensures evals == [] ==> r == Summary("N/A", 0)
    ensures evals != [] ==> r.average == ToFixed1(Sum(Values(evals, m)), |evals|)
    ensures |evals| == 1 ==> r.trend == 0
    ensures |evals| >= 2 ==> r.trend == Score(evals[|evals| - 1], m) - Score(evals[|evals| - 2], m)
  {
    if |evals| == 0 then Summary("N/A", 0)
    else
      var values := Values(evals, m);
      var lastTwo := Last(values, 2);
      var trend := if |lastTwo| > 1 then lastTwo[1] - lastTwo[0] else 0;
      assert |evals| >= 2 ==> lastTwo == values[|values| - 2..];
      Summary(ToFixed1(Sum(values), |values|), trend)
  }

  /** A sum of n values, each in [lo, hi], lies in [n lo, n hi]. */
  lemma {:induction false} SumWithin(values: seq<int>, lo: int, hi: int)
    requires forall i :: 0 <= i < |values| ==> lo <= values[i] <= hi
    ensures |values| * lo <= Sum(values) <= |values| * hi
  {
    if values != [] {
      var n := |values|;
      SumWithin(values[..n - 1], lo, hi);
      assert (n - 1) * lo + lo == n * lo && (n - 1) * hi + hi == n * hi;
    }
  }

  /** When every score of the metric lies in [lo, hi] (lo >= 0), the shown
      mean is non-negative and lies in [lo, hi] to the tenth. */
  lemma AverageWithin(evals: seq<Evaluation>, m: Metric, lo: nat, hi: nat)
    requires evals != []
    requires forall e :: e in evals ==> lo <= Score(e, m) <= hi
    ensures ParseFixed1(CalculateMetrics(evals, m).average).Some?
    ensures !ParseFixed1(CalculateMetrics(evals, m).average).value.negative
    ensures 10 * lo <= ParseFixed1(CalculateMetrics(evals, m).average).value.tenths <= 10 * hi
  {
    var values := Values(evals, m);
    assert forall i :: 0 <= i < |values| ==> evals[i] in evals;
    SumWithin(values, lo, hi);
    MulLe(0, lo, |values|);
    ToFixed1Reads(Sum(values), |values|);
    TenthsWithin(Sum(values), |values|, lo, hi);
  }

  /** The four cards: titles and summaries, in metric order. */
  function Cards(evals: seq<Evaluation>): (r: seq<(string, Summary)>)
    ensures r == [("Productivity", CalculateMetrics(evals, Productivity)), ("Quality", CalculateMetrics(evals, Quality)),
                  ("Teamwork", CalculateMetrics(evals, Teamwork)), ("Communication", CalculateMetrics(evals, Communication))]
  {
    var r := seq(4, i requires 0 <= i < 4 => (Title(Metrics[i]), CalculateMetrics(evals, Metrics[i])));
    assert r[0].0 == "Productivity" && r[1].0 == "Quality" && r[2].0 == "Teamwork" && r[3].0 == "Communication";
    r
  }

  /** `evaluations.slice(-5)`: the most recent five, oldest first. */
  function Recent(evals: seq<Evaluation>): (r: seq<Evaluation>)
    ensures |r| == if |evals| < 5 then |evals| else 5
    ensures evals == evals[..|evals| - |r|] + r
  {
    Last(evals, 5)
  }
}

/** The dashboard's recent-evaluations table: one row per evaluation with its
    date, its type badge and the mean of its four scores, coloured by band and
    shown to one decimal; an empty list shows a message instead. */
module HistoryTable {
  import opened Wrappers
  import opened Text
  import opened Schema
  import opened Ui

  function ScoreSum(e: Evaluation): int
  {
    e.productivity + e.quality + e.teamwork + e.communication
  }

  /** The band of the four-score mean, decided on the mean itself: 8 and up
      is green, 6 and up yellow, anything lower red. */
  function Band(e: Evaluation): (c: Colour)
    ensures c == Green <==> ScoreSum(e) >= 32
    ensures c == Yellow <==> 24 <= ScoreSum(e) < 32
    ensures c == Red <==> ScoreSum(e) < 24
  {
    var average := ScoreSum(e) as real / 4.0;
    if average >= 8.0 then Green else if average >= 6.0 then Yellow else Red
  }

  datatype Row = Row(date: string, kind: string, badge: BadgeVariant, average: string, colour: Colour)

  datatype View = Message(text: string) | Table(rows: seq<Row>)

  /** One table row; `formatDate` stands for the "dd MMM yyyy" formatting of
      the timestamp. */
  function RenderRow(e: Evaluation, formatDate: int -> string): (r: Row)
    ensures r.date == formatDate(e.date) && r.kind == e.kind && r.badge == TypeBadge(e.kind)
    ensures r.colour == Band(e)
  {
    Row(formatDate(e.date), e.kind, TypeBadge(e.kind), ToFixed1(ScoreSum(e), 4), Band(e))
  }

  /** The row's average reads back as the sign of the score sum and the
      tenth nearest to its quarter. */
  lemma RowAverageReads(e: Evaluation, formatDate: int -> string)
    ensures var total := ScoreSum(e);
            ParseFixed1(RenderRow(e, formatDate).average)
            == Some(Fixed(total < 0, Tenths(if total < 0 then -total else total, 4)))
  {
    ToFixed1Reads(ScoreSum(e), 4);
  }

  /** The component: the message for an empty list, else the rows in order. */
  function Render(evals: seq<Evaluation>, formatDate: int -> string): (v: View)
    ensures evals == [] <==> v == Message("No evaluations found")
    ensures v.Table? ==> |v.rows| == |evals|
    ensures v.Table? ==> forall i :: 0 <= i < |evals| ==> v.rows[i] == RenderRow(evals[i], formatDate)
  {
    if |evals| == 0 then Message("No evaluations found")
    else Table(seq(|evals|, i requires 0 <= i < |evals| => RenderRow(evals[i], formatDate)))
  }

  /** A mean is a multiple of a quarter, so its tenths are exact except for
      the .25 and .75 cases, which round away from zero: a sum s shows
      (5 |s| + 1) / 2 tenths. */
  lemma QuarterTenths(s: nat)
    ensures Tenths(s, 4) == (5 * s + 1) / 2
  {
  }

  /** Scores 7, 8, 6 and 9 show "7.5" in yellow. */
  lemma ExampleRow(e: Evaluation, formatDate: int -> string)
    requires e.productivity == 7 && e.quality == 8 && e.teamwork == 6 && e.communication == 9
    ensures RenderRow(e, formatDate).average == "7.5"
    ensures RenderRow(e, formatDate).colour == Yellow
  {
    assert Tenths(30, 4) == 75;
    assert NatToString(7) == "7";
  }
}

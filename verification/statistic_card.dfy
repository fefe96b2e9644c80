/** A dashboard card: a title, the value exactly as given and, for a non-zero
    numeric trend, a coloured line with the signed trend to one decimal and an
    arrow pointing its way. */
module StatisticCard {
  import opened Wrappers
  import opened Text
  import opened Ui

  datatype TrendLine = TrendLine(text: string, colour: Colour)

  datatype Card = Card(title: string, value: string, trend: Option<TrendLine>)

  /** The line's text: a plus sign for a rise, the trend to one decimal, a
      space and an arrow pointing the trend's way. */
  function TrendText(t: int): string
  {
    (if t > 0 then "+" else "") + ToFixed1(t, 1) + (if t > 0 then " ↑" else " ↓")
  }

  /** The trend line; `trend` is None when the card gets no number. */
  function TrendBadge(trend: Option<int>): (r: Option<TrendLine>)
    ensures r.Some? <==> trend.Some? && trend.value != 0
    ensures r.Some? ==> r.value.text == TrendText(trend.value) && (r.value.colour == Green <==> trend.value > 0)
  {
    match trend
    case None => None
    case Some(t) => if t == 0 then None else Some(TrendLine(TrendText(t), if t > 0 then Green else Red))
  }

  /** The trend text of a whole trend: its sign, its digits, ".0", a space
      and the arrow. */
  lemma TrendTextWhole(t: int)
    requires t != 0
    ensures t > 0 ==> TrendText(t) == "+" + NatToString(t) + ".0" + " ↑"
    ensures t < 0 ==> TrendText(t) == "-" + NatToString(-t) + ".0" + " ↓"
  {
    var f := ToFixed1(t, 1);
    ToFixed1Whole(t);
    if t > 0 {
      assert f == NatToString(t) + ".0";
      assert "+" + f + " ↑" == "+" + NatToString(t) + ".0" + " ↑";
    } else {
      assert f == "-" + NatToString(-t) + ".0";
    }
  }

  /** The card component. */
  function Render(title: string, value: string, trend: Option<int>): (c: Card)
    ensures c.title == title && c.value == value
    ensures c.trend.Some? <==> trend.Some? && trend.value != 0
    ensures c.trend.Some? ==> (c.trend.value.colour == Green <==> trend.value > 0)
  {
    Card(title, value, TrendBadge(trend))
  }

  /** The trend text reads back as the trend: a sign, the magnitude in tenths
      and an arrow that agrees with the sign. */
  lemma TrendTextReadsBack(t: int)
    requires t != 0
    ensures var text := TrendText(t);
            && |text| >= 2
            && (t > 0 ==> text[0] == '+' && text[|text| - 1] == '↑')
            && (t < 0 ==> text[0] == '-' && text[|text| - 1] == '↓')
            && ParseFixed1(text[1..|text| - 2]) == Some(Fixed(false, 10 * (if t < 0 then -t else t)))
  {
    var m := if t < 0 then -t else t;
    var text := TrendText(t);
    var digits := NatToString(m) + ".0";
    TrendTextWhole(t);
    if t > 0 {
      assert text == ['+'] + digits + [' ', '↑'];
    } else {
      assert text == ['-'] + digits + [' ', '↓'];
    }
    assert text[1..|text| - 2] == digits;
    WholeReads(m);
  }
}

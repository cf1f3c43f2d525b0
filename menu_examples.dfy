/**
 * Concrete instances of the join reports: a best_value_restaurants row worked
 * out for one small menu, and the rating-0 group that worst_10_restaurants,
 * as written, divides by.
 */
module MenuExamples {
  import opened Wrappers
  import opened Relational
  import opened Aggregates
  import opened Cleaning
  import opened Join
  import opened MenuReports

  // ------------------------------------------------ best_value_restaurants

  /** A restaurant rated 5 with two dishes, priced 5 and 10. */
  const Bistro: Restaurant :=
    Restaurant(Some("b"), Some("bistro"), Some("ghent"), Some(true), Some(5.0), Some(10), None, None)
  const Soup: MenuItem := MenuItem(Some("b"), SqlInteger(1), Some("soup"), Some(5.0))
  const Stew: MenuItem := MenuItem(Some("b"), SqlInteger(2), Some("stew"), Some(10.0))

  lemma BistroJoin()
    ensures Selected(RatedAtLeastThree, [Bistro], [Soup, Stew]) == [Joined(Bistro, Soup), Joined(Bistro, Stew)]
  {
    var j1, j2 := Joined(Bistro, Soup), Joined(Bistro, Stew);
    assert [Soup, Stew][..1] == [Soup] && [Soup][..0] == [];
    assert Matches(Bistro, [Soup]) == [j1];
    assert Matches(Bistro, [Soup, Stew]) == [j1, j2];
    assert [Bistro][..0] == [];
    assert InnerJoin([Bistro], [Soup, Stew]) == [j1, j2];
    assert [j1, j2][..1] == [j1] && [j1][..0] == [];
    assert Filter(RatedAtLeastThree, [j1]) == [j1];
  }

  lemma BistroAverage()
    ensures Avg(Project(ItemPrice, [Joined(Bistro, Soup), Joined(Bistro, Stew)])) == Some(7.5)
  {
    var ps := Project(ItemPrice, [Joined(Bistro, Soup), Joined(Bistro, Stew)]);
    assert ps[0] == Some(5.0) && ps[1] == Some(10.0);
    assert ps == [Some(5.0), Some(10.0)];
    AvgOfTwo(5.0, 10.0);
  }

  /** A restaurant rated 5 with items priced 5 and 10: average 7.5, ratio 1.5. */
  lemma BestValueExample()
    ensures BestValue([Bistro], [Soup, Stew]) ==
      [BestValueRow(ValueIdentity(Some("b"), Some("bistro"), Some("ghent"), Some(5.0)), Some(7.5), Some(1.5))]
  {
    var j1, j2 := Joined(Bistro, Soup), Joined(Bistro, Stew);
    BistroJoin();
    var v := ValueOf(j1);
    assert [j1, j2][..1] == [j1] && [j1][..0] == [];
    assert GroupBy(ValueOf, [j1]) == [(v, [j1])];
    assert GroupBy(ValueOf, [j1, j2]) == AddToGroup(GroupBy(ValueOf, [j1]), v, j2);
    assert GroupBy(ValueOf, [j1, j2]) == [(v, [j1, j2])];
    BistroAverage();
    assert Round2(7.5) == 7.5 by { assert (750.0 + 0.5).Floor == 750; }
    assert Round2(1.5) == 1.5 by { assert (150.0 + 0.5).Floor == 150; }
    var row := BestValueRow(v, Some(7.5), Some(1.5));
    assert BestValueRowOf((v, [j1, j2])) == row;
    assert BestValueCandidates([Bistro], [Soup, Stew]) == [row];
  }

  // -------------------------------------------------- worst_10_restaurants

  /** A cleaned restaurant rated 0 with a priced item on its menu. */
  const ZeroRated: Restaurant :=
    Restaurant(Some("r"), Some("grill"), Some("ghent"), Some(true), Some(0.0), Some(1), None, None)
  const PricedItem: MenuItem := MenuItem(Some("r"), SqlInteger(1), Some("fries"), Some(2.5))

  /**
   * As written, worst_10_restaurants divides by zero: a rating of 0 survives
   * cleaning (it lies within [0, 5]) and passes `rating <= 3.5`, so a group the
   * WHERE clause lets through lies outside the unguarded division's domain.
   */
  lemma WorstTenAsWrittenDividesByZero()
    ensures Between(Some(0.0), 0.0, 5.0) == Some(0.0)
    ensures ValidRestaurant(ZeroRated) && ValidMenuItem(PricedItem)
    ensures var gs := GroupBy(RatedOf, Selected(RatedAtMostThreeHalfAndPriced, [ZeroRated], [PricedItem]));
      |gs| == 1 && !WorstRowAsWritten.requires(gs[0])
  {
    var j := Joined(ZeroRated, PricedItem);
    assert Matches(ZeroRated, [PricedItem]) == [j];
    assert InnerJoin([ZeroRated], [PricedItem]) == [j];
    assert Selected(RatedAtMostThreeHalfAndPriced, [ZeroRated], [PricedItem]) == [j];
    assert GroupBy(RatedOf, [j]) == [(RatedOf(j), [j])];
  }
}

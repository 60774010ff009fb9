/** The detector on concrete series. */
module LevelExamples {
  import opened PriceLevels
  import LevelProperties

  /** Seven points: three supports and two resistances, found by a scan that
      runs to the end of the interior. */
  lemma SevenPointSeries()
    ensures Detect([10.0, 8.0, 12.0, 7.0, 15.0, 6.0, 20.0])
            == ScanOutcome(Levels([8.0, 7.0, 6.0], [12.0, 15.0]), 6)
  {
  }

  /** The lists are not capped one by one: supports grow to four while the
      resistances stay short, so the loop never breaks. */
  lemma SupportsPastThree()
    ensures Detect([10.0, 8.0, 9.0, 7.0, 8.0, 6.0, 7.0, 5.0, 6.0])
            == ScanOutcome(Levels([8.0, 7.0, 6.0, 5.0], [9.0]), 8)
  {
  }

  /** The loop breaks at index 6 once both lists hold three levels; the
      qualifying extrema at indices 7 and 8 are never looked at. */
  lemma BreaksBeforeTheEnd()
    ensures Detect([10.0, 20.0, 9.0, 30.0, 8.0, 40.0, 7.0, 50.0, 6.0, 60.0])
            == ScanOutcome(Levels([9.0, 8.0, 7.0], [20.0, 30.0, 40.0]), 6)
  {
  }

  /** A flat series has neither supports nor resistances. */
  lemma FlatSeries()
    ensures Detect([5.0, 5.0, 5.0, 5.0, 5.0]).levels == NoLevels
  {
    LevelProperties.MonotoneSeriesHasNoLevels([5.0, 5.0, 5.0, 5.0, 5.0]);
  }
}

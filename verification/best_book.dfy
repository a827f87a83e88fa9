/** The bestseller card (components/BestBook.js): which rank decorations
    and which cover size a rank gets. */
module BestBook {
  import Session

  /** The flags the card derives from its rank. */
  datatype Flags = Flags(isFirstPlace: bool, showRank: bool, isSecondPlace: bool, isThirdPlace: bool)

  function FlagsOf(rank: int): (f: Flags)
    ensures f.isFirstPlace <==> rank == 1
    ensures f.isSecondPlace <==> rank == 2
    ensures f.isThirdPlace <==> rank == 3
    ensures f.showRank <==> rank <= 3
  {
    Flags(rank == 1, rank <= 3, rank == 2, rank == 3)
  }

  /** The container keeps a fixed width for every card but the first. */
  predicate ContainerFixed(rank: int)
  {
    !FlagsOf(rank).isFirstPlace
  }

  /** The container leaves room for a rank numeral on the second and third. */
  predicate ContainerWithRank(rank: int)
  {
    FlagsOf(rank).isSecondPlace || FlagsOf(rank).isThirdPlace
  }

  /** The container without a rank numeral. */
  predicate ContainerNoRank(rank: int)
  {
    !FlagsOf(rank).showRank
  }

  /** The first place gets the large cover, every other card the medium one. */
  predicate LargeCover(rank: int)
  {
    FlagsOf(rank).isFirstPlace
  }

  /** At most one place flag holds, and for a rank counted from one the
      numeral shows exactly on the three places. */
  lemma PlacesExclusive(rank: int)
    ensures var f := FlagsOf(rank);
              !(f.isFirstPlace && f.isSecondPlace) && !(f.isFirstPlace && f.isThirdPlace)
              && !(f.isSecondPlace && f.isThirdPlace)
    ensures rank >= 1 ==> (FlagsOf(rank).showRank <==>
              FlagsOf(rank).isFirstPlace || FlagsOf(rank).isSecondPlace || FlagsOf(rank).isThirdPlace)
  {
  }

  /** The container styles in terms of the rank itself. */
  lemma ContainerStyles(rank: int)
    ensures ContainerFixed(rank) <==> rank != 1
    ensures ContainerWithRank(rank) <==> rank == 2 || rank == 3
    ensures ContainerNoRank(rank) <==> rank > 3
    ensures LargeCover(rank) <==> !ContainerFixed(rank)
  {
  }

  /** A rank of zero or less still shows its numeral, but with none of the
      place styles. */
  lemma NonPositiveRankUnstyled(rank: int)
    requires rank <= 0
    ensures FlagsOf(rank).showRank && !ContainerWithRank(rank) && !LargeCover(rank)
  {
  }

  /** The search results and recent books are drawn as rank 4: fixed width,
      no numeral, medium cover. */
  lemma SearchCardsArePlain()
    ensures ContainerFixed(4) && ContainerNoRank(4) && !LargeCover(4) && !FlagsOf(4).showRank
  {
  }

  /** On the home screen's weekly list, whatever the tab, exactly the first
      three books carry a numeral and only the first has the large cover. */
  lemma WeeklyListDecorations(activeTab: string, i: nat)
    requires i < |Session.CurrentBooks(activeTab)|
    ensures FlagsOf(Session.CurrentBooks(activeTab)[i].rank).showRank <==> i < 3
    ensures LargeCover(Session.CurrentBooks(activeTab)[i].rank) <==> i == 0
  {
    Session.CurrentBooksRanked(activeTab);
  }
}

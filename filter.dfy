/** Project filtering: the filter buttons, each with an optional
    `data-filter` tag, and the project cards, each with an optional
    `data-category` tag. A click is modelled by the state it leaves once its
    own fade timers have fired, with no timer of an earlier click still
    pending: a card is either displayed or hidden. */
module ProjectFilter {

  import opened Wrappers
  import opened Flags

  /** `filter === 'all' || card.getAttribute('data-category') === filter`,
      where a missing attribute is null on both sides. */
  predicate Matches(filter: Option<string>, category: Option<string>)
  {
    filter == Some("all") || category == filter
  }

  /** Which cards end up displayed under `filter`. */
  function Visibility(filter: Option<string>, categories: seq<Option<string>>): (shown: seq<bool>)
    ensures |shown| == |categories|
    ensures forall i :: 0 <= i < |categories| ==>
      (shown[i] <==> filter == Some("all") || categories[i] == filter)
    decreases |categories|
  {
    if categories == [] then []
    else [Matches(filter, categories[0])] + Visibility(filter, categories[1..])
  }

  /** The `all` filter displays every card. */
  lemma AllShowsEveryCard(categories: seq<Option<string>>)
    ensures Visibility(Some("all"), categories) == seq(|categories|, _ => true)
  {
  }

  /** Any other filter displays exactly the cards tagged with it. */
  lemma FilterSelectsItsCategory(filter: string, categories: seq<Option<string>>)
    requires filter != "all"
    ensures forall i :: 0 <= i < |categories| ==>
      Visibility(Some(filter), categories)[i] == (categories[i] == Some(filter))
  {
  }

  class FilterBar {
    const filters: seq<Option<string>>
    const categories: seq<Option<string>>
    var buttonActive: array<bool>
    var cardShown: array<bool>

    ghost predicate Valid()
      reads this
    {
      buttonActive.Length == |filters| && cardShown.Length == |categories| &&
      buttonActive != cardShown
    }

    /** The page as the markup gives it: tags, and which buttons and cards
        start active and displayed. */
    constructor (buttonFilters: seq<Option<string>>, cardCategories: seq<Option<string>>,
                 activeAtStart: seq<bool>, shownAtStart: seq<bool>)
      requires |activeAtStart| == |buttonFilters| && |shownAtStart| == |cardCategories|
      ensures Valid() && fresh(buttonActive) && fresh(cardShown)
      ensures filters == buttonFilters && categories == cardCategories
      ensures buttonActive[..] == activeAtStart && cardShown[..] == shownAtStart
    {
      filters := buttonFilters;
      categories := cardCategories;
      buttonActive := new bool[|activeAtStart|](i requires 0 <= i < |activeAtStart| => activeAtStart[i]);
      cardShown := new bool[|shownAtStart|](i requires 0 <= i < |shownAtStart| => shownAtStart[i]);
    }

    /** The click listener of button `b`: only `b` stays active, and each card
        is displayed exactly when it matches `b`'s filter. */
    method Click(b: nat)
      requires Valid() && b < |filters|
      modifies buttonActive, cardShown
      ensures Valid()
      ensures buttonActive[..] == Only(|filters|, b)
      ensures cardShown[..] == Visibility(filters[b], categories)
    {
      var i := 0;
      while i < buttonActive.Length
        invariant 0 <= i <= buttonActive.Length
        invariant forall j :: 0 <= j < i ==> !buttonActive[j]
      {
        buttonActive[i] := false;
        i := i + 1;
      }
      buttonActive[b] := true;

      var filter := filters[b];
      ghost var expected := Visibility(filter, categories);
      var k := 0;
      while k < cardShown.Length
        invariant 0 <= k <= cardShown.Length
        invariant forall j :: 0 <= j < k ==> cardShown[j] == expected[j]
        invariant buttonActive[..] == Only(|filters|, b)
      {
        if filter == Some("all") || categories[k] == filter {
          cardShown[k] := true;
        } else {
          cardShown[k] := false;
        }
        k := k + 1;
      }
    }
  }
}

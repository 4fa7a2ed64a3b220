/** The filter/search controller of one `[data-filter-group]` container
  * (`initFilters` in js/main.js): an active category token, a search field,
  * the filter buttons and the items of the lists the group governs. */
module Filters {
  import opened Text

  /** An item of a governed list: its `data-category`, `data-keywords` and
    * text content (the empty string where an attribute is absent, which is
    * what the source's `||` fallbacks treat alike) and its `hidden` flag. */
  datatype Item = Item(category: string, keywords: string, text: string, hidden: bool)

  /** A `.filter-button`: its `data-filter` ("" when absent) and whether it
    * carries `is-active`. */
  datatype FilterButton = FilterButton(filter: string, active: bool)

  /** The category list of an item, `"all"` when it has none. */
  function CategoryOf(item: Item): string
  {
    if item.category != "" then item.category else "all"
  }

  /** The normalized text a query is searched in: the keywords, else the
    * text content. */
  function KeywordsOf(item: Item): string
  {
    Normalize(if item.keywords != "" then item.keywords else item.text)
  }

  predicate MatchesCategory(active: string, item: Item)
  {
    active == "all" || active in Split(CategoryOf(item), ' ')
  }

  predicate MatchesQuery(query: string, item: Item)
  {
    query == "" || Contains(KeywordsOf(item), query)
  }

  /** The visibility rule of `applyFilters`: both the category and the query
    * must match. */
  predicate Visible(active: string, query: string, item: Item)
  {
    MatchesCategory(active, item) && MatchesQuery(query, item)
  }

  /** The query `applyFilters` reads: the trimmed, normalized value of the
    * search field, or nothing when the group has no search field. */
  function SearchQuery(hasSearch: bool, value: string): string
  {
    if hasSearch then Normalize(Trim(value)) else ""
  }

  /** The category a button selects: its `data-filter`, else `"all"`. */
  function FilterOf(button: FilterButton): string
  {
    if button.filter != "" then button.filter else "all"
  }

  /** An item after `applyFilters` has rewritten its `hidden` flag. */
  function Refiltered(item: Item, active: string, query: string): Item
  {
    item.(hidden := !Visible(active, query, item))
  }

  /** The query test is plain substring search: it holds exactly when the
    * normalized query occurs in the normalized keywords (the empty query
    * occurs everywhere, so the source's `!query ||` changes nothing). */
  lemma QueryMatchIsOccurrence(query: string, item: Item)
    ensures MatchesQuery(query, item) <==> exists i :: OccursAt(KeywordsOf(item), query, i)
  {
    ContainsIff(KeywordsOf(item), query);
    if query == "" {
      assert OccursAt(KeywordsOf(item), query, 0);
    }
  }

  /** An item with one category token is shown under `"all"` and under that
    * token only. */
  lemma SingleTokenCategory(active: string, item: Item)
    requires item.category != "" && ' ' !in item.category
    ensures MatchesCategory(active, item) <==> active == "all" || active == item.category
  {
    SplitWithoutSeparator(item.category, ' ');
  }

  /** An item without `data-category` is shown only while `"all"` is active. */
  lemma UncategorisedOnlyUnderAll(active: string, item: Item)
    requires item.category == ""
    ensures MatchesCategory(active, item) <==> active == "all"
  {
    SplitWithoutSeparator("all", ' ');
  }

  /** A token the active filter matches is a whole space-separated word of
    * the item's categories, never a part of one. */
  lemma MatchedTokenHasNoSpace(active: string, item: Item)
    requires active != "all" && MatchesCategory(active, item)
    ensures ' ' !in active
    ensures Join(Split(CategoryOf(item), ' '), ' ') == CategoryOf(item)
  {
    SplitJoin(CategoryOf(item), ' ');
  }

  /** Search ignores accents: writing "e" for an "é" in an item's keywords
    * never changes whether a query matches it. */
  lemma AccentInsensitiveSearch(query: string, item: Item, a: string, b: string)
    requires item.keywords == a + "\U{00E9}" + b
    ensures MatchesQuery(query, item) <==> MatchesQuery(query, item.(keywords := a + "e" + b))
  {
    AccentsIgnored(a, b);
  }

  /** Re-applying the filters without a change of filter or query changes
    * nothing: visibility never depends on the previous `hidden` flag. */
  lemma RefilterIdempotent(item: Item, active: string, query: string)
    ensures Refiltered(Refiltered(item, active, query), active, query) == Refiltered(item, active, query)
  {
  }

  class FilterGroup {
    var items: seq<Item>
    var buttons: seq<FilterButton>
    var activeFilter: string
    const hasSearch: bool
    var searchValue: string

    function Query(): string
      reads this
    {
      SearchQuery(hasSearch, searchValue)
    }

    /** Sets up the group with `activeFilter = "all"` and applies the filters
      * once. */
    constructor (items: seq<Item>, buttons: seq<FilterButton>, hasSearch: bool, searchValue: string)
      ensures this.buttons == buttons && this.hasSearch == hasSearch && this.searchValue == searchValue
      ensures activeFilter == "all"
      ensures |this.items| == |items|
      ensures forall i :: 0 <= i < |items| ==> this.items[i] == Refiltered(items[i], "all", Query())
    {
      this.items := items;
      this.buttons := buttons;
      this.activeFilter := "all";
      this.hasSearch := hasSearch;
      this.searchValue := searchValue;
      new;
      ApplyFilters();
    }

    /** `applyFilters`: rewrites every item's `hidden` flag from the active
      * filter and the current query, and touches nothing else. */
    method ApplyFilters()
      modifies this`items
      ensures |items| == |old(items)|
      ensures forall i :: 0 <= i < |items| ==> items[i] == Refiltered(old(items[i]), activeFilter, Query())
    {
      var query := if hasSearch then Normalize(Trim(searchValue)) else "";
      var i := 0;
      while i < |items|
        invariant 0 <= i <= |items| == |old(items)|
        invariant query == Query()
        invariant forall j :: 0 <= j < i ==> items[j] == Refiltered(old(items[j]), activeFilter, query)
        invariant forall j :: i <= j < |items| ==> items[j] == old(items[j])
      {
        var item := items[i];
        var category := if item.category != "" then item.category else "all";
        var keywords := Normalize(if item.keywords != "" then item.keywords else item.text);
        var matchesCategory := activeFilter == "all" || activeFilter in Split(category, ' ');
        var matchesQuery := query == "" || Contains(keywords, query);
        assert matchesCategory && matchesQuery <==> Visible(activeFilter, query, item);
        items := items[i := item.(hidden := !(matchesCategory && matchesQuery))];
        i := i + 1;
      }
    }

    /** A click on button `k`: its filter becomes the active one, it alone
      * carries `is-active`, and the filters are re-applied. */
    method ClickButton(k: nat)
      requires k < |buttons|
      modifies this
      ensures activeFilter == FilterOf(old(buttons[k]))
      ensures |buttons| == |old(buttons)|
      ensures forall j :: 0 <= j < |buttons| ==> buttons[j] == old(buttons[j]).(active := j == k)
      ensures searchValue == old(searchValue)
      ensures |items| == |old(items)|
      ensures forall i :: 0 <= i < |items| ==> items[i] == Refiltered(old(items[i]), activeFilter, Query())
    {
      activeFilter := if buttons[k].filter != "" then buttons[k].filter else "all";
      var j := 0;
      while j < |buttons|
        invariant 0 <= j <= |buttons| == |old(buttons)|
        invariant forall m :: 0 <= m < j ==> buttons[m] == old(buttons[m]).(active := m == k)
        invariant forall m :: j <= m < |buttons| ==> buttons[m] == old(buttons[m])
        invariant items == old(items) && searchValue == old(searchValue)
        invariant activeFilter == FilterOf(old(buttons[k]))
      {
        buttons := buttons[j := buttons[j].(active := j == k)];
        j := j + 1;
      }
      ApplyFilters();
    }

    /** An `input` event on the search field: the field holds `value` and the
      * filters are re-applied with the active category kept. */
    method Input(value: string)
      requires hasSearch
      modifies this
      ensures searchValue == value && activeFilter == old(activeFilter) && buttons == old(buttons)
      ensures Query() == Normalize(Trim(value))
      ensures |items| == |old(items)|
      ensures forall i :: 0 <= i < |items| ==> items[i] == Refiltered(old(items[i]), activeFilter, Query())
    {
      searchValue := value;
      ApplyFilters();
    }
  }
}

/** The catalog client of the book service (services/aladinApi.js): category
    resolution, the request parameters of the three endpoints, and the
    shaping of their responses into the records the screens display. The
    network itself is a parameter: each operation receives the response it
    would have awaited. */
module Catalog {
  import opened Common
  import opened Text
  import opened AuthorNames

  // ---------------------------------------------------------------------
  // Categories
  // ---------------------------------------------------------------------

  /** Category name to the book service's category id. Names outside this
      map fall back to the general list, id 0. */
  const CategoryMap: map<string, int> := map[
    "종합" := 0, "소설" := 1, "시/에세이" := 50929, "자기계발" := 336,
    "경제/경영" := 170, "인문" := 656, "건강/뷰티" := 55889,
    "과학" := 987, "예술" := 55890, "여행" := 798, "청소년" := 1383,
    "요리" := 1196]

  datatype Category = Category(id: int, name: string, labelText: string)

  /** The categories offered as tabs, in display order. */
  const CategoryList: seq<Category> := [
    Category(0, "종합", "종합"),
    Category(1, "소설", "소설"),
    Category(50929, "시/에세이", "시/에세이"),
    Category(336, "자기계발", "자기계발"),
    Category(170, "경제/경영", "경제/경영"),
    Category(656, "인문", "인문"),
    Category(55889, "건강/뷰티", "건강/뷰티")]

  /** A bestseller category is given either as an id (a JavaScript number)
      or as a name. */
  datatype CategoryArg = ById(id: int) | ByName(name: string)

  /** The category id a request uses: an id is taken as it is, a known name
      is looked up, anything else is 0. (The source's `|| 0` also replaces a
      looked-up 0, which changes nothing.) */
  function CategoryIdOf(category: CategoryArg): (id: int)
    ensures category.ById? ==> id == category.id
    ensures category.ByName? ==> (id == 0 || id in CategoryMap.Values)
    ensures category.ByName? && category.name !in CategoryMap ==> id == 0
  {
    match category
    case ById(i) => i
    case ByName(n) => if n in CategoryMap then CategoryMap[n] else 0
  }

  /** Every listed tab resolves, by its name, to its own id, and shows its
      name as its label. */
  lemma CategoryListResolves(i: nat)
    requires i < |CategoryList|
    ensures CategoryList[i].name in CategoryMap
    ensures CategoryIdOf(ByName(CategoryList[i].name)) == CategoryList[i].id
    ensures CategoryList[i].labelText == CategoryList[i].name
  {
  }

  /** A name that is a key of the map resolves to the id stored for it. */
  lemma CategoryNameResolves(name: string)
    requires name in CategoryMap
    ensures CategoryIdOf(ByName(name)) == CategoryMap[name]
  {
  }

  /** The listed tabs have pairwise different ids. */
  lemma CategoryListIdsDistinct(i: nat, j: nat)
    requires i < j < |CategoryList|
    ensures CategoryList[i].id != CategoryList[j].id
  {
  }

  /** The home screen's tab names "경영/경제" and "인문/교양" are spelled
      differently from the map's keys, so asking for their bestsellers asks
      for the general list. */
  lemma HomeTabNamesFallBack()
    ensures "경영/경제" !in CategoryMap && CategoryIdOf(ByName("경영/경제")) == 0
    ensures "인문/교양" !in CategoryMap && CategoryIdOf(ByName("인문/교양")) == 0
  {
  }

  // ---------------------------------------------------------------------
  // Requests
  // ---------------------------------------------------------------------

  const DefaultBestsellerCategory := "종합"
  const DefaultBestsellerCount := 10
  const DefaultQueryType := "Keyword"
  const DefaultSearchCount := 20

  /** The parameters of a request that the response depends on. */
  datatype Request =
    | ItemList(queryType: string, maxResults: int, start: int, categoryId: int)
    | ItemLookUp(itemIdType: string, itemId: string)
    | ItemSearch(query: string, queryType: string, maxResults: int, start: int)

  /** The bestseller request: the first page of the resolved category. */
  function BestsellerRequest(category: CategoryArg, maxResults: int): (r: Request)
    ensures r.ItemList? && r.queryType == "Bestseller" && r.start == 1
    ensures r.maxResults == maxResults && r.categoryId == CategoryIdOf(category)
  {
    ItemList("Bestseller", maxResults, 1, CategoryIdOf(category))
  }

  /** A call that gives neither argument asks for the first ten books of
      the overall list, whose id is 0. */
  lemma DefaultBestsellerCall()
    ensures BestsellerRequest(ByName(DefaultBestsellerCategory), DefaultBestsellerCount)
            == ItemList("Bestseller", 10, 1, 0)
  {
  }

  /** The detail request looks the item up by its 13-digit ISBN. */
  function DetailRequest(itemId: string): (r: Request)
    ensures r.ItemLookUp? && r.itemIdType == "ISBN13" && r.itemId == itemId
  {
    ItemLookUp("ISBN13", itemId)
  }

  /** The search request asks for twice the wanted count, so that enough
      results remain once excluded categories are dropped. */
  function SearchRequest(query: string, queryType: string, maxResults: int): (r: Request)
    ensures r.ItemSearch? && r.query == query && r.queryType == queryType && r.start == 1
    ensures r.maxResults == 2 * maxResults
    ensures maxResults >= 0 ==> r.maxResults >= maxResults
  {
    ItemSearch(query, queryType, 2 * maxResults, 1)
  }

  // ---------------------------------------------------------------------
  // Responses
  // ---------------------------------------------------------------------

  /** One item as the book service returns it; any field may be missing. */
  datatype RawItem = RawItem(
    title: Option<string>,
    author: Option<string>,
    cover: Option<string>,
    isbn13: Option<string>,
    isbn: Option<string>,
    publisher: Option<string>,
    pubDate: Option<string>,
    description: Option<string>,
    priceStandard: Option<int>,
    priceSales: Option<int>,
    link: Option<string>,
    categoryName: Option<string>)

  /** An HTTP response: its `ok` flag and status, and the payload's `item`
      field when it is present and an array (`None` otherwise). */
  datatype Response = Response(ok: bool, status: int, items: Option<seq<RawItem>>)

  /** A non-ok response raises an error carrying the status. */
  datatype ApiError = RequestFailed(status: int)

  /** A book as the list screens show it. */
  datatype Book = Book(
    title: Option<string>,
    author: string,
    coverImage: Option<string>,
    isbn: Option<string>,
    publisher: Option<string>,
    pubDate: Option<string>,
    description: Option<string>,
    priceStandard: Option<int>,
    priceSales: Option<int>,
    link: Option<string>)

  /** A bestseller: its 1-based rank, the book, and the category it was
      requested for. */
  datatype RankedBook = RankedBook(rank: int, book: Book, categoryId: int)

  /** `a || b` on optional strings: `a` when it is a non-empty string. */
  function OrElse(a: Option<string>, b: Option<string>): (r: Option<string>)
    ensures a.Some? && a.value != "" ==> r == a
    ensures a.None? || a.value == "" ==> r == b
  {
    if a.Some? && a.value != "" then a else b
  }

  /** The shape of one item on a list screen: the author reduced to its
      list form and the 13-digit ISBN preferred over the 10-digit one; the
      other fields are carried over. */
  function ToBook(item: RawItem): (b: Book)
    ensures b.author == CleanAuthorName(item.author)
    ensures b.isbn == OrElse(item.isbn13, item.isbn)
    ensures b.title == item.title && b.coverImage == item.cover
    ensures b.publisher == item.publisher && b.pubDate == item.pubDate
    ensures b.description == item.description && b.link == item.link
    ensures b.priceStandard == item.priceStandard && b.priceSales == item.priceSales
  {
    Book(item.title, CleanAuthorName(item.author), item.cover, OrElse(item.isbn13, item.isbn),
         item.publisher, item.pubDate, item.description, item.priceStandard,
         item.priceSales, item.link)
  }

  function ToBooks(items: seq<RawItem>): (r: seq<Book>)
    ensures |r| == |items|
    ensures forall i :: 0 <= i < |items| ==> r[i] == ToBook(items[i])
  {
    if |items| == 0 then [] else [ToBook(items[0])] + ToBooks(items[1..])
  }

  /** The items, in order, ranked 1, 2, 3, ... */
  function Rank(items: seq<RawItem>, categoryId: int): (r: seq<RankedBook>)
    ensures |r| == |items|
    ensures forall i :: 0 <= i < |items| ==>
              r[i].rank == i + 1 && r[i].book == ToBook(items[i]) && r[i].categoryId == categoryId
  {
    seq(|items|, i requires 0 <= i < |items| => RankedBook(i + 1, ToBook(items[i]), categoryId))
  }

  /** The bestseller list of `category` from the response to its request. */
  function FetchBestsellers(category: CategoryArg, response: Response): (r: Result<seq<RankedBook>, ApiError>)
    ensures !response.ok <==> r.Failure?
    ensures r.Failure? ==> r.error == RequestFailed(response.status)
    ensures response.ok && response.items.None? ==> r == Success([])
    ensures response.ok && response.items.Some? ==>
              r.Success? && |r.value| == |response.items.value|
              && forall i :: 0 <= i < |r.value| ==>
                   r.value[i] == RankedBook(i + 1, ToBook(response.items.value[i]), CategoryIdOf(category))
  {
    if !response.ok then Failure(RequestFailed(response.status))
    else if response.items.None? then Success([])
    else Success(Rank(response.items.value, CategoryIdOf(category)))
  }

  /** Ranks are consecutive from 1: a book ranks above another exactly when
      it comes first, and the last one's rank is the number of books. */
  lemma BestsellerRanksOrdered(category: CategoryArg, response: Response, i: nat, j: nat)
    requires FetchBestsellers(category, response).Success?
    requires i < |FetchBestsellers(category, response).value|
    requires j < |FetchBestsellers(category, response).value|
    ensures var r := FetchBestsellers(category, response).value;
              (r[i].rank < r[j].rank <==> i < j) && 1 <= r[i].rank <= |r|
  {
  }

  /** The detail lookup: the first item, or `None` (null) when there is none. */
  function FetchBookDetail(response: Response): (r: Result<Option<RawItem>, ApiError>)
    ensures !response.ok <==> r.Failure?
    ensures r.Failure? ==> r.error == RequestFailed(response.status)
    ensures r.Success? && r.value.Some? <==>
              response.ok && response.items.Some? && |response.items.value| > 0
    ensures r.Success? && r.value.Some? ==> r.value.value == response.items.value[0]
  {
    if !response.ok then Failure(RequestFailed(response.status))
    else if response.items.Some? && |response.items.value| > 0 then Success(Some(response.items.value[0]))
    else Success(None)
  }

  // ---------------------------------------------------------------------
  // Search
  // ---------------------------------------------------------------------

  /** Category-name fragments whose books search never shows (comics and
      children's books). */
  const ExcludedKeywords: seq<string> := ["만화", "어린이", "코믹"]

  /** Some keyword of `keywords` occurs in `name`. */
  predicate ContainsAny(name: string, keywords: seq<string>)
  {
    exists k :: 0 <= k < |keywords| && Contains(name, keywords[k])
  }

  /** An item is excluded when its category name, read as "" when missing,
      contains an excluded keyword. */
  predicate Excluded(item: RawItem)
  {
    ContainsAny(item.categoryName.GetOr(""), ExcludedKeywords)
  }

  /** The items that are not excluded, in their original order. */
  function Kept(items: seq<RawItem>): (r: seq<RawItem>)
    ensures |r| <= |items|
    ensures forall k :: 0 <= k < |r| ==> !Excluded(r[k])
  {
    if |items| == 0 then []
    else if Excluded(items[0]) then Kept(items[1..])
    else [items[0]] + Kept(items[1..])
  }

  /** The end index `Array.prototype.slice(0, n)` uses on a list of length
      `len`: a negative `n` counts back from the end. */
  function SliceEnd(len: nat, n: int): (e: nat)
    ensures e <= len
    ensures n >= 0 ==> e == if n < len then n else len
    ensures n < 0 ==> e == if len + n > 0 then len + n else 0
  {
    if n >= 0 then (if n < len then n else len)
    else if len + n > 0 then len + n else 0
  }

  /** The raw items a search shows: the kept ones, cut to the wanted count. */
  function SearchKept(items: seq<RawItem>, maxResults: int): (r: seq<RawItem>)
    ensures r <= Kept(items)
    ensures |r| == SliceEnd(|Kept(items)|, maxResults)
  {
    Kept(items)[..SliceEnd(|Kept(items)|, maxResults)]
  }

  /** The search results from the response to a search request. */
  function SearchBooks(maxResults: int, response: Response): (r: Result<seq<Book>, ApiError>)
    ensures !response.ok <==> r.Failure?
    ensures r.Failure? ==> r.error == RequestFailed(response.status)
    ensures response.ok && response.items.None? ==> r == Success([])
    ensures response.ok && response.items.Some? ==>
              r == Success(ToBooks(SearchKept(response.items.value, maxResults)))
  {
    if !response.ok then Failure(RequestFailed(response.status))
    else if response.items.None? then Success([])
    else Success(ToBooks(SearchKept(response.items.value, maxResults)))
  }

  lemma {:induction false} KeptIsSubsequence(items: seq<RawItem>)
    ensures Subsequence(Kept(items), items)
  {
    if |items| > 0 {
      KeptIsSubsequence(items[1..]);
      if !Excluded(items[0]) {
        assert Kept(items)[1..] == Kept(items[1..]);
      } else {
        SubsequenceSkip(Kept(items), items);
      }
    }
  }

  /** Every item that is not excluded is kept as often as it occurs, and
      an excluded one never. */
  lemma {:induction false} KeptCount(items: seq<RawItem>, x: RawItem)
    ensures multiset(Kept(items))[x] == if Excluded(x) then 0 else multiset(items)[x]
  {
    if |items| > 0 {
      KeptCount(items[1..], x);
      assert items == [items[0]] + items[1..];
    }
  }

  /** An item is kept exactly when it is in the list and not excluded. */
  lemma {:induction false} KeptMembers(items: seq<RawItem>, x: RawItem)
    ensures x in Kept(items) <==> x in items && !Excluded(x)
  {
    if |items| > 0 {
      KeptMembers(items[1..], x);
      assert items == [items[0]] + items[1..];
    }
  }

  /** What a successful search shows: at most the wanted count, only items
      outside the excluded categories, in the order the service sent them. */
  lemma SearchResultsShape(maxResults: int, response: Response)
    requires response.ok && response.items.Some?
    ensures var kept := SearchKept(response.items.value, maxResults);
              SearchBooks(maxResults, response) == Success(ToBooks(kept))
              && (maxResults >= 0 ==> |kept| <= maxResults)
              && Subsequence(kept, response.items.value)
              && forall k :: 0 <= k < |kept| ==> !Excluded(kept[k])
  {
    var items := response.items.value;
    KeptIsSubsequence(items);
    PrefixOfSubsequence(Kept(items), items, SliceEnd(|Kept(items)|, maxResults));
  }

  /** When no more than the wanted count survive the exclusion, every item
      outside the excluded categories is shown. */
  lemma SearchShowsAllKept(maxResults: int, items: seq<RawItem>, x: RawItem)
    requires |Kept(items)| <= maxResults
    requires x in items && !Excluded(x)
    ensures x in SearchKept(items, maxResults)
  {
    KeptMembers(items, x);
    assert SearchKept(items, maxResults) == Kept(items);
  }

  /** An item without a category name is never excluded. */
  lemma MissingCategoryKept(item: RawItem)
    requires item.categoryName.None?
    ensures !Excluded(item)
  {
    assert forall k :: 0 <= k < |ExcludedKeywords| ==> !Contains("", ExcludedKeywords[k]);
  }

  /** Each excluded keyword excludes an item whose category name contains it
      anywhere, with any text before and after. */
  lemma KeywordExcludes(item: RawItem, k: nat, pre: string, post: string)
    requires k < |ExcludedKeywords| && item.categoryName == Some(pre + ExcludedKeywords[k] + post)
    ensures Excluded(item)
  {
    var name := pre + ExcludedKeywords[k] + post;
    assert OccursAt(name, ExcludedKeywords[k], |pre|) by {
      assert name[|pre|..|pre| + |ExcludedKeywords[k]|] == ExcludedKeywords[k];
    }
    ContainsAt(name, ExcludedKeywords[k]);
  }

  /** A failed response is an error in all three operations. */
  lemma FailedResponseFails(category: CategoryArg, maxResults: int, response: Response)
    requires !response.ok
    ensures FetchBestsellers(category, response) == Failure(RequestFailed(response.status))
    ensures FetchBookDetail(response) == Failure(RequestFailed(response.status))
    ensures SearchBooks(maxResults, response) == Failure(RequestFailed(response.status))
  {
  }
}

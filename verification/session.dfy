/** The root screen's session state (App.js): the favourite titles, the
    weekly-best category tab, the bottom tab, and the switch between the
    home view and the book-detail overlay. */
module Session {
  import opened Common

  // ---------------------------------------------------------------------
  // Favourites
  // ---------------------------------------------------------------------

  /** Favourites are kept as a set of book titles; toggling a title adds it
      when absent and removes it when present. */
  function ToggleFavorite(favorites: set<string>, title: string): (r: set<string>)
    ensures title in r <==> title !in favorites
    ensures forall t :: t != title ==> (t in r <==> t in favorites)
  {
    if title in favorites then favorites - {title} else favorites + {title}
  }

  /** Toggling the same title twice restores the favourites. */
  lemma ToggleTwice(favorites: set<string>, title: string)
    ensures ToggleFavorite(ToggleFavorite(favorites, title), title) == favorites
  {
    var once := ToggleFavorite(favorites, title);
    var twice := ToggleFavorite(once, title);
    assert forall t :: t in twice <==> t in favorites;
  }

  /** Toggles of different titles commute. */
  lemma ToggleCommutes(favorites: set<string>, a: string, b: string)
    ensures ToggleFavorite(ToggleFavorite(favorites, a), b)
            == ToggleFavorite(ToggleFavorite(favorites, b), a)
  {
    var ab := ToggleFavorite(ToggleFavorite(favorites, a), b);
    var ba := ToggleFavorite(ToggleFavorite(favorites, b), a);
    assert forall t :: t in ab <==> t in ba;
  }

  // ---------------------------------------------------------------------
  // Weekly best lists
  // ---------------------------------------------------------------------

  datatype BestEntry = BestEntry(rank: int, title: string, author: string)

  /** The weekly-best lists shown on the home screen, per category tab. */
  const BestBooksByCategory: map<string, seq<BestEntry>> := map[
    "종합" := [
      BestEntry(1, "도시인의 월든", "박혜윤"),
      BestEntry(2, "아침이 달라지는\n저녁 루틴의 힘", "류한빈"),
      BestEntry(3, "트렌드 코리아 2026", "김난도"),
      BestEntry(4, "사피엔스", "유발 하라리"),
      BestEntry(5, "총 균 쇠", "재레드 다이아몬드"),
      BestEntry(6, "습관의 힘", "찰스 두히그"),
      BestEntry(7, "미라클 모닝", "할 엘로드"),
      BestEntry(8, "코스모스", "칼 세이건")],
    "소설" := [
      BestEntry(1, "싯다르타", "헤르만 헤세"),
      BestEntry(2, "모우어", "천선란"),
      BestEntry(3, "혼모노", "성해나"),
      BestEntry(4, "달러구트 꿈 백화점", "이미예"),
      BestEntry(5, "아몬드", "손원평"),
      BestEntry(6, "파쇄", "구병모"),
      BestEntry(7, "사탄탱고", "크러스너호르커이 라슬로"),
      BestEntry(8, "채식주의자", "한강")],
    "경영/경제" := [
      BestEntry(1, "트렌드 코리아 2026", "김난도"),
      BestEntry(2, "돈의 속성", "김승호"),
      BestEntry(3, "부의 추월차선", "MJ 드마코"),
      BestEntry(4, "넛지", "리처드 탈러"),
      BestEntry(5, "경제학 콘서트", "팀 하포드"),
      BestEntry(6, "생각에 관한 생각", "대니얼 카너먼"),
      BestEntry(7, "마케팅이다", "필립 코틀러"),
      BestEntry(8, "리더의 역할", "피터 드러커")],
    "시/에세이" := [
      BestEntry(1, "도시인의 월든", "박혜윤"),
      BestEntry(2, "달러구트 꿈 백화점", "이미예"),
      BestEntry(3, "아몬드", "손원평"),
      BestEntry(4, "곰팡이꽃", "천명관"),
      BestEntry(5, "불편한 편의점", "김호연"),
      BestEntry(6, "연년세세", "황정은"),
      BestEntry(7, "나는 나로 살기로 했다", "김수현"),
      BestEntry(8, "죽고 싶지만 떡볶이는 먹고 싶어", "백세희")],
    "인문/교양" := [
      BestEntry(1, "사피엔스", "유발 하라리"),
      BestEntry(2, "총 균 쇠", "재레드 다이아몬드"),
      BestEntry(3, "코스모스", "칼 세이건"),
      BestEntry(4, "정의란 무엇인가", "마이클 샌델"),
      BestEntry(5, "이기적 유전자", "리처드 도킨스"),
      BestEntry(6, "문명의 붕괴", "재레드 다이아몬드"),
      BestEntry(7, "역사의 역사", "유시민"),
      BestEntry(8, "지적 대화를 위한 넓고 얕은 지식", "채사장")],
    "취미/실용" := [
      BestEntry(1, "아침이 달라지는\n저녁 루틴의 힘", "류한빈"),
      BestEntry(2, "습관의 힘", "찰스 두히그"),
      BestEntry(3, "미라클 모닝", "할 엘로드"),
      BestEntry(4, "아주 작은 습관의 힘", "제임스 클리어"),
      BestEntry(5, "돈의 심리학", "모건 하우절"),
      BestEntry(6, "나는 4시간만 일한다", "팀 페리스"),
      BestEntry(7, "부자 아빠 가난한 아빠", "로버트 기요사키"),
      BestEntry(8, "1만 시간의 법칙", "말콤 글래드웰")]]

  const GeneralTab := "종합"

  /** The category tabs above the weekly-best list, in display order. */
  const CategoryTabs: seq<string> := ["종합", "소설", "경영/경제", "시/에세이", "인문/교양", "취미/실용"]

  /** A list of eight entries ranked 1 to 8 in order. */
  predicate RankedOneToEight(list: seq<BestEntry>)
  {
    |list| == 8 && forall i :: 0 <= i < |list| ==> list[i].rank == i + 1
  }

  /** The list shown for a tab: its own, or the general list when the map
      has none for it. */
  function CurrentBooks(activeTab: string): (r: seq<BestEntry>)
    ensures activeTab in BestBooksByCategory ==> r == BestBooksByCategory[activeTab]
    ensures activeTab !in BestBooksByCategory ==> r == BestBooksByCategory[GeneralTab]
  {
    if activeTab in BestBooksByCategory then BestBooksByCategory[activeTab]
    else BestBooksByCategory[GeneralTab]
  }

  /** Every tab the home screen offers has a list of its own. */
  lemma CategoryTabsHaveLists(i: nat)
    requires i < |CategoryTabs|
    ensures CategoryTabs[i] in BestBooksByCategory
    ensures CurrentBooks(CategoryTabs[i]) == BestBooksByCategory[CategoryTabs[i]]
  {
  }

  /** Whatever the tab, the list shown has eight entries ranked 1 to 8. */
  lemma CurrentBooksRanked(activeTab: string)
    ensures RankedOneToEight(CurrentBooks(activeTab))
  {
    assert RankedOneToEight(BestBooksByCategory["종합"]);
    assert RankedOneToEight(BestBooksByCategory["소설"]);
    assert RankedOneToEight(BestBooksByCategory["경영/경제"]);
    assert RankedOneToEight(BestBooksByCategory["시/에세이"]);
    assert RankedOneToEight(BestBooksByCategory["인문/교양"]);
    assert RankedOneToEight(BestBooksByCategory["취미/실용"]);
  }

  // ---------------------------------------------------------------------
  // Views and events
  // ---------------------------------------------------------------------

  datatype View = HomeView | BookDetailView

  /** The book the detail overlay shows; any field may be missing. */
  datatype SelectedBook = SelectedBook(title: Option<string>, author: Option<string>, coverImage: Option<string>)

  datatype State = State(
    activeTab: string,
    activeBottomTab: string,
    currentView: View,
    selectedBook: Option<SelectedBook>,
    favorites: set<string>)

  const NowReadingTitle := "모우어"
  const NowReadingAuthor := "천선란"
  const NowReadingCover := "book-cover-mower.png"

  /** The state when the app starts. */
  const Initial: State := State(GeneralTab, "home", HomeView, None, {})

  /** The book pressing the now-reading card opens. */
  const NowReading: SelectedBook := SelectedBook(Some(NowReadingTitle), Some(NowReadingAuthor), Some(NowReadingCover))

  /** The title the detail overlay receives: the selected book's title, or
      the now-reading title when there is none or it is empty. */
  function DetailTitle(s: State): (t: string)
    ensures t != ""
    ensures s.selectedBook.Some? && s.selectedBook.value.title.Some? && s.selectedBook.value.title.value != ""
            ==> t == s.selectedBook.value.title.value
    ensures !(s.selectedBook.Some? && s.selectedBook.value.title.Some? && s.selectedBook.value.title.value != "")
            ==> t == NowReadingTitle
  {
    if s.selectedBook.Some? && s.selectedBook.value.title.Some? && s.selectedBook.value.title.value != ""
    then s.selectedBook.value.title.value
    else NowReadingTitle
  }

  /** The author the detail overlay receives, with the same kind of fallback. */
  function DetailAuthor(s: State): (a: string)
    ensures a != ""
    ensures s.selectedBook.Some? && s.selectedBook.value.author.Some? && s.selectedBook.value.author.value != ""
            ==> a == s.selectedBook.value.author.value
    ensures !(s.selectedBook.Some? && s.selectedBook.value.author.Some? && s.selectedBook.value.author.value != "")
            ==> a == NowReadingAuthor
  {
    if s.selectedBook.Some? && s.selectedBook.value.author.Some? && s.selectedBook.value.author.value != ""
    then s.selectedBook.value.author.value
    else NowReadingAuthor
  }

  /** The overlay names the selected book by its own title and author when
      it has them, each one falling back on its own: a book with an empty
      title but a real author shows the now-reading title over that author. */
  lemma DetailFallsBackPerField(s: State, author: string)
    requires author != ""
    ensures var b := s.(selectedBook := Some(SelectedBook(Some(""), Some(author), None)));
              DetailTitle(b) == NowReadingTitle && DetailAuthor(b) == author
    ensures DetailTitle(s.(selectedBook := None)) == NowReadingTitle
            && DetailAuthor(s.(selectedBook := None)) == NowReadingAuthor
    ensures DetailTitle(s.(selectedBook := Some(NowReading))) == NowReadingTitle
            && DetailAuthor(s.(selectedBook := Some(NowReading))) == NowReadingAuthor
  {
  }

  /** The detail overlay is on screen exactly in the detail view. */
  predicate OverlayShown(s: State)
  {
    s.currentView == BookDetailView
  }

  /** The favourite flag the overlay starts from: whether its title is a
      favourite. */
  function InitialFavorite(s: State): (b: bool)
    ensures b <==> DetailTitle(s) in s.favorites
  {
    DetailTitle(s) in s.favorites
  }

  datatype Event =
    | PressNowReading
    | DetailBack
    | DetailToggleFavorite
    | PressCategoryTab(tab: string)
    | PressBottomTab(id: string)

  /** One user action. The overlay's own actions do nothing while it is not
      on screen, since it is not rendered then. */
  function Step(s: State, e: Event): (r: State)
    ensures r.favorites != s.favorites ==> e.DetailToggleFavorite? && OverlayShown(s)
    ensures e.PressNowReading? ==> r.currentView == BookDetailView && r.selectedBook == Some(NowReading)
    ensures e.DetailBack? && OverlayShown(s) ==> r.currentView == HomeView && r.selectedBook.None?
    ensures e.PressBottomTab? ==> r == s.(activeBottomTab := e.id)
    ensures e.PressCategoryTab? ==> r == s.(activeTab := e.tab)
    ensures e.DetailToggleFavorite? && OverlayShown(s) ==>
              r == s.(favorites := ToggleFavorite(s.favorites, DetailTitle(s)))
  {
    match e
    case PressNowReading => s.(selectedBook := Some(NowReading), currentView := BookDetailView)
    case DetailBack => if OverlayShown(s) then s.(currentView := HomeView, selectedBook := None) else s
    case DetailToggleFavorite =>
      if OverlayShown(s) then s.(favorites := ToggleFavorite(s.favorites, DetailTitle(s))) else s
    case PressCategoryTab(tab) => s.(activeTab := tab)
    case PressBottomTab(id) => s.(activeBottomTab := id)
  }

  /** A run of actions from `s`. */
  function Run(s: State, events: seq<Event>): State
    decreases |events|
  {
    if |events| == 0 then s else Run(Step(s, events[0]), events[1..])
  }

  /** A book is selected exactly while the detail overlay is shown. */
  predicate Consistent(s: State)
  {
    s.selectedBook.Some? <==> s.currentView == BookDetailView
  }

  lemma StepConsistent(s: State, e: Event)
    requires Consistent(s)
    ensures Consistent(Step(s, e))
  {
  }

  /** Every state reachable from the start keeps a book selected exactly
      while the overlay is shown. */
  lemma {:induction false} RunConsistent(s: State, events: seq<Event>)
    requires Consistent(s)
    ensures Consistent(Run(s, events))
    decreases |events|
  {
    if |events| > 0 {
      StepConsistent(s, events[0]);
      RunConsistent(Step(s, events[0]), events[1..]);
    }
  }

  lemma InitialConsistent()
    ensures Consistent(Initial)
    ensures Initial.activeTab == GeneralTab && Initial.activeBottomTab == "home"
    ensures Initial.currentView == HomeView && Initial.selectedBook.None? && Initial.favorites == {}
  {
  }

  /** In a reachable detail view the overlay shows the now-reading book. */
  lemma {:induction false} ReachableDetailShowsNowReading(s: State, events: seq<Event>)
    requires s.selectedBook.None? || s.selectedBook == Some(NowReading)
    ensures var r := Run(s, events);
              r.selectedBook.None? || r.selectedBook == Some(NowReading)
    decreases |events|
  {
    if |events| > 0 {
      ReachableDetailShowsNowReading(Step(s, events[0]), events[1..]);
    }
  }

  /** Pressing the favourite button of the overlay flips the flag the
      overlay is given, and leaves every other title's membership alone. */
  lemma DetailToggleFlipsFlag(s: State)
    requires OverlayShown(s)
    ensures var r := Step(s, DetailToggleFavorite);
              DetailTitle(r) == DetailTitle(s) && InitialFavorite(r) == !InitialFavorite(s)
              && forall t :: t != DetailTitle(s) ==> (t in r.favorites <==> t in s.favorites)
  {
  }

  /** Opening the overlay and going back returns to the home view with no
      book selected, and keeps the favourites and tabs. */
  lemma OpenThenBack(s: State)
    ensures var r := Step(Step(s, PressNowReading), DetailBack);
              r == s.(currentView := HomeView, selectedBook := None)
  {
  }
}

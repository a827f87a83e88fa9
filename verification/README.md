# Dotori Room — a Dafny model of the app's decision logic

Dotori Room is a React Native reading-community app. It has a home screen with a
weekly bestseller list, a book detail overlay, a search screen, reading-room
cards and a form for creating a reading room. It fetches its books from the
Aladin open API. Most of the app is presentation. This project models the part
that makes decisions, as pure functions over immutable data:

- the catalog client. This covers the two author-name normalisers, category
  resolution, and the shaping of the bestseller, detail and search responses.
  The parenthesis-stripping regular expression is modelled as a scan.
- the root session state. This covers favourite titles, the weekly-list tab
  fallback, and the home/detail view switch.
- the order and number of participant avatars on a reading-room card.
- the room-creation form. This covers the next-button rule, the participant
  counter with its text field (JavaScript `parseInt` and `String(n)`), the
  invited friends, the friend strip's edge gradients, the close confirmation
  and the deadline label.
- the search screen's submit and chip transitions, and which of its sections
  are on screen.
- the gating rules of the detail screen, the bestseller card, the page dots,
  the bottom tab bar, the toast provider, the button, the text field, the
  switch and the confirmation dialog.

One module per source file, plus three shared ones:

- `Common` holds `Option` and `Result`.
- `Text` holds the JavaScript white-space class shared by `trim` and `\s`,
  trimming, `split` on one character, and `includes`.
- `Decimal` holds decimal rendering and `parseInt`.

A JavaScript `undefined`/`null` property or field is `None`. A callback
property is a boolean "is given", or an opaque handler value. HTTP responses
are an abstract record: the `ok` flag, the status, and the item list, which is
present only when it is an array.

## Model

| member | source | states |
|---|---|---|
| Text.Trim | services/aladinApi.js:85-90 | `trim()` (also applied at services/aladinApi.js:67 and to the search box at screens/SearchScreen.js:49) gives the infix left after dropping white space at both ends; it has no white space at either end, and it is empty exactly when the input is all white space |
| Text.TrimIdempotent | services/aladinApi.js:85 | trimming a trimmed part again changes nothing |
| Text.JoinSplit | services/aladinApi.js:64 | joining the parts of `split(',')` with commas gives back the original string |
| Text.SplitJoin | services/aladinApi.js:85 | splitting a comma-join of comma-free parts gives back exactly those parts |
| Text.Split | services/aladinApi.js:85 | `split` on one character yields one more part than the separator occurs, none containing the separator |
| Text.ContainsAt | services/aladinApi.js:257-258 | `includes` (`Contains`) holds exactly when the keyword occurs as a contiguous run at some offset of the text |
| Decimal.NatToDecimal | screens/CreateReadingRoom.js:196 | `String(n)` of a natural number is a non-empty digit string with no leading zero unless n is 0 |
| Decimal.ValueOfDecimal | screens/CreateReadingRoom.js:196 | reading back the digits of `String(n)` gives n |
| Decimal.DecimalInjective | screens/CreateReadingRoom.js:130-135 | different numbers have different decimal renderings |
| Decimal.ParseDigits | screens/CreateReadingRoom.js:198 | the digit run `parseInt` reads is absent exactly when the text does not start with a digit |
| Decimal.ParseIntOfIntToDecimal | screens/CreateReadingRoom.js:196-198 | `parseInt(String(i), 10)` is i for every integer i, negative ones included |
| Decimal.ParseIntOfDigits | screens/CreateReadingRoom.js:198 | `parseInt` of digits followed by non-digit text reads the digits and ignores the rest |
| Decimal.ParseIntOfMinus | screens/CreateReadingRoom.js:198 | a minus sign before a digit run makes the value its negation |
| Decimal.ParseIntNoDigits | screens/CreateReadingRoom.js:198-199 | text that, after leading white space, starts with neither a sign nor a digit is NaN |
| Decimal.ParseInt | screens/CreateReadingRoom.js:198 | `parseInt` gives a number exactly when, after leading white space, the text starts with a digit or with a sign followed by a digit; a negative result needs a leading minus |
| Decimal.DigitPrefixUnique | screens/CreateReadingRoom.js:134 | a digit string followed by text that starts with a non-digit splits only one way |
| AuthorNames.GroupAt | services/aladinApi.js:67 | a match of `\s*\([^)]*\)` starts at a position exactly when the white-space run there is followed by `(` and some later `)`; it ends right after the first such `)` |
| AuthorNames.StripLeavesNoGroup | services/aladinApi.js:66-67 | after the global removal of parenthesised groups (`StripGroups`) no `(` is followed anywhere later by a `)` |
| AuthorNames.StripKeepsFrom | services/aladinApi.js:67 | the removal only drops characters and keeps none that was not there |
| AuthorNames.StripWithoutParens | services/aladinApi.js:67 | text without `(` is left unchanged by the removal |
| AuthorNames.StripAroundGroup | services/aladinApi.js:67 | removing the group of `name (role)` keeps the name and everything after the group unchanged |
| AuthorNames.RoleFrom | services/aladinApi.js:89 | the capture of `/\(([^)]+)\)/` is the non-empty, `)`-free text from the leftmost `(` that opens a non-empty group (no earlier position opens one) up to the next `)`, and there is none exactly when the part has no such group |
| AuthorNames.LeftmostCaptureUnique | services/aladinApi.js:89 | only one group is leftmost and only one text runs from its `(` to the next `)`, so the role found is the first group's and no later one's |
| AuthorNames.RoleOfTwoGroups | services/aladinApi.js:89 | in "(a) (b)" the role is "a", the first group's text |
| AuthorNames.RoleSkipsEmpty | services/aladinApi.js:89 | an empty group `()` is skipped when looking for the role |
| AuthorNames.CleanAuthorName | services/aladinApi.js:60-70 | absent or empty input gives `''`; the result contains no comma, has no white space at either end, and has no closed group |
| AuthorNames.CleanAuthorNameFirstOnly | services/aladinApi.js:63-64 | only the text before the first comma affects the result |
| AuthorNames.CleanAnnotated | services/aladinApi.js:60-70 | `name (role), rest` becomes exactly `name` |
| AuthorNames.CleanAuthorNameExample | services/aladinApi.js:76 | the documented example "홍길동 (엮은이), 김철수 (원작)" gives "홍길동" |
| AuthorNames.CleanAuthorNameWithoutGroups | services/aladinApi.js:63-67 | text without `(` is reduced to its first comma-separated part, trimmed |
| AuthorNames.EntryOf | services/aladinApi.js:88-99 | a part's entry has a trimmed, group-free name; its role is null exactly when there is no non-empty group or the first one is "지은이", and otherwise it is the first group's text |
| AuthorNames.EntryOfAnnotated | services/aladinApi.js:85-99 | a part `name (role)`, with or without leading spaces, gives the entry `{name, role}`, with the role dropped when it is "지은이" |
| AuthorNames.EntryOfWithoutGroups | services/aladinApi.js:88-99 | a part without `(` gives its trimmed text as the name and no role |
| AuthorNames.EntryOfAroundGroup | services/aladinApi.js:88-99 | a part `name (role)` followed by group-free text gives the name with that text kept, trimmed, and the role unless it is "지은이" |
| AuthorNames.FormatAuthorForDetail | services/aladinApi.js:79-103 | absent or empty input gives `[]`; otherwise one entry per comma-separated part, in order (commas + 1 entries), and no entry has the role "지은이" |
| Catalog.CategoryIdOf | services/aladinApi.js:114-116 | a numeric category is kept; a known name maps to its id; any other name maps to 0 |
| Catalog.CategoryListResolves | services/aladinApi.js:43-51 | every tab-list entry's name is a key of the category map and resolves to the entry's id |
| Catalog.CategoryNameResolves | services/aladinApi.js:20-37 | a key of the map resolves to its value |
| Catalog.CategoryListIdsDistinct | services/aladinApi.js:43-51 | the tab list's ids are pairwise distinct |
| Catalog.HomeTabNamesFallBack | App.js:281-283 | the home tabs "경영/경제" and "인문/교양" are not keys of the category map and resolve to 0 |
| Catalog.BestsellerRequest | services/aladinApi.js:120-130 | the bestseller request asks for the first page of the resolved category |
| Catalog.DetailRequest | services/aladinApi.js:185-193 | the detail request looks the item up by ISBN-13 |
| Catalog.SearchRequest | services/aladinApi.js:226-236 | the search request asks for twice the wanted count |
| Catalog.ToBook | services/aladinApi.js:262-273 | the list form of an item takes the list form of its author and prefers the 13-digit ISBN, carrying the other fields over |
| Catalog.FetchBestsellers | services/aladinApi.js:137-171 | a non-ok response is an error with its status; no item array gives `[]`; otherwise one ranked book per item, in order, ranked i+1 |
| Catalog.BestsellerRanksOrdered | services/aladinApi.js:147-148 | ranks run from 1 to the list length, in list order |
| Catalog.FetchBookDetail | services/aladinApi.js:200-210 | a non-ok response is an error; otherwise the first item when there is one, else null |
| Catalog.SearchBooks | services/aladinApi.js:243-278 | a non-ok response is an error; no item array gives `[]`; otherwise the kept items cut to the wanted count |
| Catalog.Kept | services/aladinApi.js:251-260 | no kept item's category name contains an excluded keyword |
| Catalog.KeptMembers | services/aladinApi.js:253-260 | an item is kept exactly when it is one of the items and its category name, read as `''` when missing, contains no excluded keyword (`Excluded`, with `Text.Contains` for `includes`) |
| Catalog.KeptCount | services/aladinApi.js:251-260 | the filter keeps every copy of a kept item and none of an excluded one |
| Catalog.SliceEnd | services/aladinApi.js:260 | `slice(0, n)` ends at n capped at the length, or for negative n that many from the end, never before 0 |
| Catalog.OrElse | services/aladinApi.js:266 | `a \|\| b` on strings is `a` when it is present and non-empty and `b` otherwise |
| Catalog.DefaultBestsellerCall | services/aladinApi.js:111 | called with no arguments, the bestseller service asks for 10 items of the "Bestseller" list, page 1, all categories |
| Catalog.SearchResultsShape | services/aladinApi.js:249-273 | a successful search shows at most the wanted count, only items outside the excluded categories, as an order-preserving subsequence of the items |
| Catalog.SearchShowsAllKept | services/aladinApi.js:253-261 | when no more than the wanted count survive the filter, every surviving item is shown |
| Catalog.MissingCategoryKept | services/aladinApi.js:256 | an item without a category name is treated as `''` and kept |
| Catalog.KeywordExcludes | services/aladinApi.js:251-259 | each of "만화", "어린이", "코믹" excludes a category whose name contains it anywhere, with any text before and after |
| Catalog.FailedResponseFails | services/aladinApi.js:137-139 | a non-ok response is an error in all three operations |
| Session.ToggleFavorite | App.js:34-44 | toggling flips the membership of that title and leaves every other title's membership as it was |
| Session.ToggleTwice | App.js:34-44 | toggling a title twice restores the set |
| Session.ToggleCommutes | App.js:34-44 | toggles of two titles can be done in either order |
| Session.CurrentBooks | App.js:110 | a tab without a list of its own shows the "종합" list |
| Session.CategoryTabsHaveLists | App.js:279-284 | every rendered category tab label has a list of its own |
| Session.CurrentBooksRanked | App.js:47-110 | whatever the tab, the list shown has eight books ranked 1 to 8 in order |
| Session.DetailTitle | App.js:184 | the detail title is the selected book's title when it has a non-empty one, and "모우어" in every other case: nothing selected, title absent or empty |
| Session.DetailAuthor | App.js:500 | the detail author is the selected book's author when it has a non-empty one, and "천선란" in every other case: nothing selected, author absent or empty |
| Session.DetailFallsBackPerField | App.js:184 | title and author fall back independently: a book with an empty title and a real author shows "모우어" over that author; no selection, or the now-reading book, shows "모우어" by "천선란" |
| Session.InitialFavorite | App.js:502 | the overlay's favourite flag is membership of the detail title |
| Session.Step | App.js:201-204 | pressing the now-reading card selects the 모우어 book and opens the detail view; back returns home with nothing selected; tab presses set their tab; only the overlay's toggle changes favourites |
| Session.OpenThenBack | App.js:504-507 | opening the detail and going back returns home with no book selected and nothing else changed |
| Session.RunConsistent | App.js:28-29 | in every state reached from the start a book is selected exactly while the detail overlay is shown |
| Session.InitialConsistent | App.js:25-30 | the start state: tab "종합", bottom tab "home", home view, nothing selected, no favourites |
| Session.ReachableDetailShowsNowReading | App.js:201-204 | the only book ever selected is the now-reading one |
| Session.DetailToggleFlipsFlag | App.js:502-503 | the overlay's toggle flips the flag the overlay is given and no other title |
| RoomCard.SectionsExclusive | components/RoomCard.js:31-33 | at most one bottom section (`ShowProgress`, `ShowPeople`, `ShowRecruiting`) shows, and one shows exactly when the status is "inProgress" or "recruiting" |
| RoomCard.FindUser | components/RoomCard.js:39 | the participant found is the first whose id is the current user's (`===`, so two undefined ids match, while undefined and null do not), and none is found only when no id matches |
| RoomCard.NullIdIsNotMissing | components/RoomCard.js:39-41 | a participant whose id is null is not found for a user with an undefined id, stays among the others, and is found for a null user id |
| RoomCard.Others | components/RoomCard.js:40 | the others are participants whose id is not the current user's, drawn from the input |
| RoomCard.SortNewestFirst | components/RoomCard.js:41-42 | the sort yields a permutation of its input with `joinedAt` never increasing |
| RoomCard.SortedParticipantsOrder | components/RoomCard.js:36-45 | the first participant with the current user's id leads when there is one, followed by exactly the others |
| RoomCard.SortedParticipantsTail | components/RoomCard.js:40-44 | after the head, no entry has the current user's id and the entries are newest first |
| RoomCard.SortedParticipantsLength | components/RoomCard.js:39-44 | the sorted list has one entry per other participant, plus one when the current user is present |
| RoomCard.SortedParticipantsFromInput | components/RoomCard.js:36-45 | every avatar is one of the participants, no more often than in the input |
| RoomCard.SortedParticipants | components/RoomCard.js:36-45 | the current user's entry, when found, comes first, and the rest is the other participants as a permutation, newest first |
| RoomCard.DuplicateUserDropped | components/RoomCard.js:39-44 | with two participants sharing the current user's id the sorted list is shorter than the input |
| RoomCard.HomeScreenCardsShowOneAvatar | App.js:252 | the home cards' three empty participants with no current user collapse to one avatar and no "+n" badge |
| RoomCard.Displayed | components/RoomCard.js:48 | the displayed avatars are a prefix of the sorted entries of length exactly min(3, n) |
| RoomCard.MoreCount | components/RoomCard.js:51 | the badge counts exactly the participants not drawn (n − 3 when n > 3, else 0), and is positive exactly when there are more than three |
| RoomCard.DisplayedPlusMore | components/RoomCard.js:48-51 | displayed avatars and the badge count add up to the number of participants |
| CreateRoom.NextBlockedOnlyWhenPrivateAndAlone | screens/CreateReadingRoom.js:68 | the next button (`NextEnabled`) is disabled exactly for a private room with nobody invited |
| CreateRoom.Increment | screens/CreateReadingRoom.js:70-72 | the plus button adds exactly one |
| CreateRoom.IncrementDecrement | screens/CreateReadingRoom.js:70-76 | minus undoes plus on every count from zero up; plus undoes minus above zero, and after minus at zero plus gives 1 |
| CreateRoom.Decrement | screens/CreateReadingRoom.js:74-76 | the minus button lowers the count by one but never below zero |
| CreateRoom.EditCount | screens/CreateReadingRoom.js:197-203 | a leading non-negative integer sets the count; an emptied field sets it to 0; any other text leaves it |
| CreateRoom.EditCountOfShownText | screens/CreateReadingRoom.js:196-203 | handing back the text the field shows leaves the count unchanged |
| CreateRoom.EditCountOfDecimal | screens/CreateReadingRoom.js:198-200 | typing the digits of n sets the count to n |
| CreateRoom.EditCountIgnoresNegative | screens/CreateReadingRoom.js:199 | a negative number typed in is ignored |
| CreateRoom.CountNeverNegative | screens/CreateReadingRoom.js:70-76 | starting from zero, no sequence of presses and edits makes the count negative |
| CreateRoom.RemoveFriend | screens/CreateReadingRoom.js:78-80 | removal keeps exactly the friends with another id, in their original order (an order-preserving subsequence of the list) |
| CreateRoom.RemoveFriendCount | screens/CreateReadingRoom.js:79 | removal shortens the list by the number of entries with that id |
| CreateRoom.RemoveFriendTwice | screens/CreateReadingRoom.js:78-80 | removing the same id again changes nothing |
| CreateRoom.RemoveAbsentFriend | screens/CreateReadingRoom.js:79 | removing an id nobody has changes nothing |
| CreateRoom.ContentWidth | screens/CreateReadingRoom.js:113 | the strip's content width is 66 per friend, 4 between neighbours, plus 16 |
| CreateRoom.OnLayout | screens/CreateReadingRoom.js:110-121 | after layout the strip is scrollable exactly when its content is wider than the view; the left gradient is off and the right one is on exactly when scrollable |
| CreateRoom.LayoutScrollMonotone | screens/CreateReadingRoom.js:113-114 | more friends never make a scrolling strip stop scrolling |
| CreateRoom.OnScroll | screens/CreateReadingRoom.js:93-108 | the left gradient shows exactly when scrollable and more than 5 from the start; the right one exactly when scrollable and more than 5 from the end |
| CreateRoom.GradientsNeedScrolling | screens/CreateReadingRoom.js:99-120 | no gradient ever shows on a strip that does not scroll |
| CreateRoom.SomeGradientWhenWide | screens/CreateReadingRoom.js:100-106 | when the content overhangs the view by more than 10, some gradient always shows |
| CreateRoom.CloseStep | screens/CreateReadingRoom.js:82-91 | the close button opens the confirmation; every way out closes it; only confirming goes back, and only with a back handler |
| CreateRoom.LeavingNeedsConfirmation | screens/CreateReadingRoom.js:82-91 | leaving the form takes a close press followed by a confirm |
| CreateRoom.CloseModal | screens/CreateReadingRoom.js:347-355 | the confirmation shows "취소" as its primary and "아니요" as its secondary label |
| CreateRoom.ConfirmationWaysOut | screens/CreateReadingRoom.js:347-355 | every interaction with the shown confirmation but a tap inside it off the buttons closes it, and only the primary button leaves the form |
| CreateRoom.FormatDate | screens/CreateReadingRoom.js:130-135 | the label is `String(year)`, "년 ", `String(month0 + 1)`, "월 ", `String(day)` and "일 까지", in that order |
| CreateRoom.FormatDateReadsBack | screens/CreateReadingRoom.js:130-135 | the label ends in "일 까지" and `parseInt` of it gives back the year |
| CreateRoom.FormatDateInjective | screens/CreateReadingRoom.js:130-135 | different dates get different labels |
| SearchScreen.HandleSearch | screens/SearchScreen.js:48-69 | blank text changes nothing and sends nothing; otherwise a keyword search for the untrimmed text is sent and the search runs to completion |
| SearchScreen.BlankSubmitIgnored | screens/SearchScreen.js:49 | a submission is ignored exactly when the box holds only white space, and then the state is unchanged |
| SearchScreen.SubmitRecordsText | screens/SearchScreen.js:50-55 | a submission hands the text as typed to `onAddSearch` and leaves the screen searched and not searching |
| SearchScreen.SubmitResults | screens/SearchScreen.js:57-67 | after a submission the results are the service's books, or none on an error, at most 20, none from an excluded category |
| SearchScreen.StartSearch | screens/SearchScreen.js:50-55 | the start of a search records the term when the callback is given and sets searching and searched |
| SearchScreen.FinishSearch | screens/SearchScreen.js:61-67 | when the service answers, searching stops and the results are its books, or none on an error |
| SearchScreen.HandleChipPress | screens/SearchScreen.js:79-99 | a chip press puts the term in the box, hands it to `onAddSearch` when given, sets searched, and ends with the service's books filtered and cut to 20, or none on an error or an empty answer |
| SearchScreen.ChipSearchesBlankTerm | screens/SearchScreen.js:79-99 | a chip with a blank term is searched for although submitting the same text would be ignored |
| SearchScreen.SectionsExclusive | screens/SearchScreen.js:117-196 | results (`ShowResults`) and no-results (`ShowNoResults`) never show together or while searching; after a search exactly one shows; the recent lists (`ShowRecentSearches`, `ShowRecentBooks`) show only before any search |
| SearchScreen.SearchSections | screens/SearchScreen.js:122-170 | while a search runs only the loading indicator (`ShowLoading`) shows; once answered, results show exactly when there are some |
| SearchScreen.RowLastThirdColumn | screens/SearchScreen.js:145 | the cards that end a row are those in the third column |
| SearchScreen.RowEndsAreFullRows | screens/SearchScreen.js:140-146 | a grid of n cards has n/3 row-ending cards |
| BookDetail.SyncFavorite | screens/BookDetail.js:44-60 | the local flag starts at `initialFavorite` and is reset whenever that property changes, and otherwise kept |
| BookDetail.HandleFavoriteToggle | screens/BookDetail.js:115-128 | a press flips the flag, calls the parent once when it is given, and shows the "added" toast exactly when the new flag is true |
| BookDetail.ToggleTwice | screens/BookDetail.js:115-128 | two presses restore the flag, call the parent twice, and the toast comes with exactly one of them |
| BookDetail.FavoriteStaysInStep | screens/BookDetail.js:58-60 | with the app's handler, the local flag after a press and the following render equals the app's membership of the title |
| BookDetail.ClaimsSwipeWithinCone | screens/BookDetail.js:89 | the swipe is claimed (`ClaimsSwipe`) exactly when it starts within 50 of the left edge, has moved more than 10 right, and its vertical movement lies strictly within the horizontal one |
| BookDetail.FollowFinger | screens/BookDetail.js:91-95 | the screen follows the finger only rightwards |
| BookDetail.OnRelease | screens/BookDetail.js:96-110 | a release goes back exactly when the swipe covered more than 30% of the screen width, and springs back otherwise |
| BookDetail.ReleaseMonotone | screens/BookDetail.js:99 | a longer swipe goes back whenever a shorter one does |
| BookDetail.BackCalls | screens/BookDetail.js:70-80 | `onBack` is called once after going back, and only when given |
| BookDetail.SwipeBackLeavesDetail | screens/BookDetail.js:99-100 | a swipe that goes back, with the app's handler, ends in the home view with no book selected |
| ToastContext.ShowToast | contexts/ToastContext.js:13-19 | showing makes the toast visible with the message and the given duration, 2000 when omitted |
| ToastContext.HideToast | contexts/ToastContext.js:21-26 | hiding makes the toast invisible and keeps message and duration |
| ToastContext.ShowHideLaws | contexts/ToastContext.js:13-26 | showing ignores the previous toast, hiding is idempotent, and hiding a just-shown toast keeps its message |
| ToastContext.HideInitial | contexts/ToastContext.js:7-11 | the provider starts hidden, with an empty message and duration 2000 |
| ToastContext.UseToast | contexts/ToastContext.js:41-46 | outside a provider `useToast` fails with its error message; inside it yields the provider's context value `{ showToast }`, which offers showing but neither hiding nor the toast record |
| BestBook.FlagsOf | components/BestBook.js:20-24 | first, second and third place hold for ranks 1, 2 and 3; the numeral shows for ranks up to 3 |
| BestBook.PlacesExclusive | components/BestBook.js:20-24 | at most one place flag holds, and for ranks from 1 the numeral shows exactly on the three places |
| BestBook.ContainerStyles | components/BestBook.js:29-31 | fixed width exactly for ranks other than 1; room for a numeral exactly for ranks 2 and 3; no numeral exactly above 3; the large cover exactly for rank 1 |
| BestBook.NonPositiveRankUnstyled | components/BestBook.js:21-31 | a rank of zero or below still shows its numeral but no place style |
| BestBook.SearchCardsArePlain | screens/SearchScreen.js:148-149 | the search cards, drawn as rank 4, have fixed width, no numeral and the medium cover |
| BestBook.WeeklyListDecorations | App.js:293-295 | on the home list exactly the first three books carry a numeral and only the first has the large cover |
| Navigator.Dots | components/Navigator.js:14-19 | there are `total` dots (none for a negative total) and dot i is active exactly when i equals `active` |
| Navigator.OneActiveDot | components/Navigator.js:14-22 | exactly one dot is active when `0 <= active < total`, and none otherwise |
| Navigator.DefaultDots | components/Navigator.js:11 | by default five dots are shown with the first active |
| BottomNavigation.ActiveIndex | components/BottomNavigation.js:112-126 | the active tab is the one whose id equals `activeTab`, and none is active when no id matches |
| BottomNavigation.AtMostOneActive | components/BottomNavigation.js:126 | at most one tab is active |
| BottomNavigation.ChatMatchesNoTab | components/BottomNavigation.js:106-117 | the documented value "chat" activates no tab |
| BottomNavigation.Press | components/BottomNavigation.js:131 | a press hands the tab's id to `onTabPress` exactly when that is given |
| BottomNavigation.PressActivatesTab | App.js:487-493 | in the app the pressed tab becomes the active one, and "home" is active at the start |
| Button.PressHandler | components/Button.js:68 | a disabled button forwards no press; an enabled one forwards `onPress` |
| Button.FeedbackOf | components/Button.js:62-88 | the pressed style needs pressed and enabled; the 3-point drop needs that and a variant other than "text"; the pressed text colour needs that and the "text" variant |
| Button.FeedbackOnlyWhenLive | components/Button.js:74-88 | a button that is not pressed, or is disabled, shows no feedback; a text button never moves |
| Button.ContentOf | components/Button.js:80-96 | a string child is drawn as a styled label and any other child as given |
| Button.ContentKeepsChildren | components/Button.js:81-96 | the drawn content always gives back the children |
| TextField.HandleClear | components/TextField.js:22-28 | clearing calls `onClear` when given, else `onChangeText('')` when given, else nothing |
| TextField.ClearButtonLayout | components/TextField.js:34-55 | the clear button (`ClearButtonShown`) and its padding: the padding is there whenever the button is, and without it only on a disabled field; clearing through `onChangeText` removes both |
| TextField.FocusedByLastEvent | components/TextField.js:31-33 | the field is focused exactly when the last focus event was a focus |
| Switch.HandlePress | components/Switch.js:16-20 | a press calls `onValueChange(!value)` exactly when enabled and the callback is given |
| Switch.ThumbOffset | components/Switch.js:6-10 | the thumb rests at 20 when on and at 0 when off |
| Switch.Pressed | components/Switch.js:16-27 | the shown value changes exactly when the press reaches the callback |
| Switch.PressLaws | components/Switch.js:10-27 | two presses restore the value; an effective press moves the thumb to the other end and switches the track style |
| ModalPopup.PrimaryLabel | components/ModalPopup.js:22 | the primary label defaults to "확인" |
| ModalPopup.SecondaryLabel | components/ModalPopup.js:23 | the secondary label defaults to "취소" |
| ModalPopup.SecondaryHandler | components/ModalPopup.js:52 | the secondary handler is `onSecondaryPress`, falling back to `onClose` |
| ModalPopup.Fired | components/ModalPopup.js:33-64 | an overlay press and a close request call `onClose`; a tap inside the dialog calls nothing; the buttons call their handlers, and a hidden secondary button calls nothing |
| ModalPopup.SecondaryActsAsClose | components/ModalPopup.js:48-62 | without `onSecondaryPress` the secondary button does what closing does; the primary button is full width exactly when the secondary is hidden |
| ModalPopup.BareDialog | components/ModalPopup.js:18-41 | a dialog given only a title shows the default labels, no description, and calls nothing |

## Left out

- The network: `fetch`, the proxy URL, query-string encoding and the API key.
  A request is the parameters that vary, and a response is an abstract record.
- Console logging, async scheduling and stale-response races. A search is one
  atomic transition, or a start step followed by a finish step.
- Animations: springs, timings, the pan responder's mechanics and the toast's
  auto-hide timer. Only the conditions that start them are modelled.
- `Date`, `DateTimePicker` and `Platform`. `CreateRoom.FormatDate` takes the
  year, the zero-based month and the day as integers, so the 30-days-ahead
  default and invalid dates are not modelled.
- Category names that are keys of `Object.prototype` (such as "toString") are
  not modelled. `CATEGORY_MAP[name] || 0` would see inherited values for them.
- Catalog.FetchBookDetail: a detail payload whose `item` is a non-array value
  with a positive `length` is not modelled. Item lists are present only when
  they are arrays.
- Decimal.ParseInt: works on unbounded integers. It does not model
  floating-point precision loss or `Infinity` for digit runs longer than about
  15 digits.
- RoomCard.SortNewestFirst: the sort is proved to be an ordered permutation.
  Its stability for equal `joinedAt`, which the language's sort guarantees, is
  not proved. `joinedAt` is an integer timestamp rather than a parsed date.
- A participant id that is `NaN`, which is never `===` to itself, is not
  modelled. Ids are integers, strings, `null` or missing.
- The `moreCount` property the home screen passes to the room card
  (App.js:253) is ignored by the component, which computes its own overflow
  count, so the property is not part of the model.
- AuthorNames.FormatAuthorForDetail: the entries of a concrete multi-author
  string are stated through `AuthorNames.EntryOfAnnotated` for one part at a
  time, not as one worked example of the whole list.
- Recent-search and recent-book lists: their owner is not part of this model.
  The search screen only reports terms through `onAddSearch`.
- Styles, colours, icons, headers and the other presentation components have
  no decisions to model.
- The page index of the best-review carousel uses `Math.round` on floating
  point and is left out. Gesture and scroll positions are `real`.

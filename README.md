# Digi-school content logic, modelled in Dafny

Digi-school is a school content dashboard. Teachers keep school content records: homework,
notes, announcements and assignments, each with a teacher, a class, an optional subject,
an upload date, a title, an optional description and attachment links. The browser side has
four parts:

- a content page that lists the records, counts them by kind and edits them in add/edit and
  delete dialogs;
- a search panel with a free-text search, a multi-field filter form, a search history and
  autocomplete suggestions;
- two chat assistants, an older and a newer one, that route a typed message through a
  first-match chain of keyword rules and answer by listing, counting, ranking, updating,
  removing or uploading content.

The Python back end adds agent tools: natural-language dates, homework by date, announcements
of the week, type and keyword searches, a summary, and title updates, removals and note
uploads through the content store. It also has a student dashboard endpoint and the record
types.

The project has one module per source file of that logic, plus shared helper modules:

| module | models |
|---|---|
| `SearchPanel` | `frontend/scripts/advanced-search.js`; a class `AdvancedSearch` with the history and content fields |
| `ChatAssistant` | `frontend/scripts/chat-new.js` |
| `Chat` | `frontend/scripts/chat.js` |
| `ContentPage` | `frontend/scripts/main.js`; the dialog state is a class `PageState` |
| `AgentUtils` | `backend/agent/utils.py` |
| `AgentTools` | `backend/agent/tools.py` |
| `StudentDashboard` | `backend/routers/dashboard.py` |
| `Records` | `backend/models/data_model.py` |
| `Store` | the insert, update and delete of `backend/core/sqlite_db.py`, as a class `ContentStore` |
| `Common`, `Text`, `Dates`, `Patterns`, `Ranking` | the list, string, calendar, regular-expression and group-count operations the files above rely on |

The inputs of the outside world are parameters:

- the clock (`today`, the hour and minute);
- the two random draws of the dashboard;
- the server's acceptance of a request (`ok`);
- whether a date lies in the last seven days (`inLastWeek`).

A chat reply is a value naming the answer chosen and the data it is built from. A request to
the server is a value in that reply (`UpdateRequest`, `DeleteRequest`, `UploadRequest`, or
`Put`/`Post`/`Delete` on the content page). Where the source raises an exception it does not
catch, the model returns a `Failure`.

Where a general description of the system and the code differ, the model follows the code:

- Search terms are the pieces between single spaces, not white-space-separated words. Two
  spaces in a row give an empty term, and every item contains an empty term
  (`SearchPanel.EmptyTermMatchesEverything`).
- The rankings count a missing class name or subject as "Unknown". Their counts therefore
  always add up to the number of items (`ChatAssistant.ClassRankingCorrect`,
  `ChatAssistant.BreakdownsAddUp`).
- Ties in a ranking keep their first-occurrence order. The sort inserts each entry after
  every entry of equal or greater count (`Ranking.InsertAfterEqual`).

## Model

| member | source | states |
|---|---|---|
| SearchPanel.AddedToHistoryCorrect | frontend/scripts/advanced-search.js:514-517 | A query already in the history leaves it unchanged. A new query becomes entry 0, followed by the older entries in order, at most 10 in all. |
| SearchPanel.AddedToHistoryDistinct | frontend/scripts/advanced-search.js:515-517 | A duplicate-free history stays duplicate-free after an add. |
| SearchPanel.SearchResultCorrect | frontend/scripts/advanced-search.js:328-336 | The search result is an order-preserving subsequence of the content. An item is kept iff every lowercased single-space-separated term occurs in its lowercased searchable text. |
| SearchPanel.SearchFindsTitleWord | frontend/scripts/advanced-search.js:328-336 | A one-word query occurring in an item's lowercased title finds that item. |
| SearchPanel.TitleIsSearchable | frontend/scripts/advanced-search.js:330-333 | Any text in the lowercased title occurs in the searchable text. |
| SearchPanel.OneWordTerms | frontend/scripts/advanced-search.js:328 | A query without spaces is a single lowercased term. |
| SearchPanel.EmptyTermMatchesEverything | frontend/scripts/advanced-search.js:328-336 | Every item's searchable text contains the empty term that a double space in the query produces. |
| SearchPanel.EmptyFormPassesAll | frontend/scripts/advanced-search.js:412-433 | With "All" chosen in every field and no dates, every item passes the filter. |
| SearchPanel.DateRangeIsCalendarRange | frontend/scripts/advanced-search.js:429-430 | For ISO renderings of valid dates, the inclusive string range test is exactly the calendar range. |
| SearchPanel.FilterResultCorrect | frontend/scripts/advanced-search.js:412-433 | Filtering is order-preserving and keeps an item iff it passes every active field: OR within a field, AND across fields, type lowercased, inclusive string date bounds. |
| SearchPanel.Matching | frontend/scripts/advanced-search.js:380-393 | Every teacher or type suggestion has the given icon, is one of the names, and contains the lowercased query. Every name that contains the query has a suggestion. |
| SearchPanel.SubjectMatching | frontend/scripts/advanced-search.js:372-377 | None iff some subject is absent. Otherwise every suggestion has the book icon, is a present subject, and contains the query, and every subject that contains the query has a suggestion. |
| SearchPanel.WithHistoryCorrect | frontend/scripts/advanced-search.js:396-400 | The history step keeps the earlier suggestions as a prefix. It adds a history entry only if the entry contains the query and no suggestion has its text. Every history entry that contains the query ends up with a suggestion of its text. |
| SearchPanel.SubjectOrigins | frontend/scripts/advanced-search.js:372-377 | Each subject suggestion has the book icon, contains the query and is the subject of some item. Every item's subject that contains the query is suggested. |
| SearchPanel.TeacherOrigins | frontend/scripts/advanced-search.js:380-385 | Each teacher suggestion has the user icon, contains the query and is the teacher of some item. Every item's teacher that contains the query is suggested. |
| SearchPanel.BaseCorrect | frontend/scripts/advanced-search.js:372-393 | Before the history step, the list is the subject, teacher and type suggestions in that order, each from its own origin. No matching subject, teacher or type is missing. |
| SearchPanel.SuggestionsFail | frontend/scripts/advanced-search.js:372-377 | The suggestions are unavailable exactly when some item has no subject. |
| SearchPanel.SuggestionsCorrect | frontend/scripts/advanced-search.js:367-403 | None iff some item has no subject. Otherwise at most 5 suggestions, each containing the query, grouped in the order subjects, teachers, fixed types, history, with no history entry repeating an earlier text. |
| SearchPanel.SuggestionsFirstFive | frontend/scripts/advanced-search.js:367-403 | The suggestions are the first min(5, n) entries of the full list of n. That list has a suggestion for every matching subject, teacher, type and history entry, so when n <= 5 nothing matching is left out. |
| SearchPanel.FullCorrect | frontend/scripts/advanced-search.js:367-402 | Before the cut to 5, the origin rank never decreases along the list, and every entry comes from its origin. |
| SearchPanel.FullComplete | frontend/scripts/advanced-search.js:367-402 | Before the cut to 5, every subject, teacher, type and history entry that contains the query has a suggestion of its text. |
| SearchPanel.ResultsLabelWording | frontend/scripts/advanced-search.js:455-459 | The label opens with digits that read back (by `Text.DecimalValue`) as the result count, followed by a space. It contains "results" iff the count is not 1, and it ends in " found". |
| Text.DecimalRoundTrip | frontend/scripts/advanced-search.js:458 | The decimal rendering of a number in a template literal reads back as that number. |
| SearchPanel.CollectSubjects | frontend/scripts/advanced-search.js:372-377 | The subject loop returns exactly `SubjectMatching`. |
| SearchPanel.CollectMatching | frontend/scripts/advanced-search.js:380-393 | The teacher and type loops return exactly `Matching`. |
| SearchPanel.CollectHistory | frontend/scripts/advanced-search.js:396-400 | The history loop returns exactly `WithHistory`. |
| SearchPanel.AdvancedSearch.constructor | frontend/scripts/advanced-search.js:3-8 | The history comes from storage. Content and shown list are empty. |
| SearchPanel.AdvancedSearch.LoadContent | frontend/scripts/advanced-search.js:246-256 | Content and shown list become the fetched items. The history is unchanged. |
| SearchPanel.AdvancedSearch.AddToSearchHistory | frontend/scripts/advanced-search.js:514-520 | The history becomes `AddedToHistory` of the old one. Nothing else changes. |
| SearchPanel.AdvancedSearch.ClearSearchHistory | frontend/scripts/advanced-search.js:566-569 | The history becomes empty. Nothing else changes. |
| SearchPanel.AdvancedSearch.PerformSearch | frontend/scripts/advanced-search.js:318-340 | A blank query shows all content and keeps the history. Any other query is added to the history and shows its search result. The shown list stays a subsequence of the content. |
| SearchPanel.AdvancedSearch.ApplyFilters | frontend/scripts/advanced-search.js:405-437 | The shown list becomes the filter result. Content and history are unchanged. |
| SearchPanel.AdvancedSearch.ClearFilters | frontend/scripts/advanced-search.js:439-449 | The shown list becomes all content again. |
| SearchPanel.AdvancedSearch.GenerateSuggestions | frontend/scripts/advanced-search.js:367-403 | The loops build exactly the specified suggestion list: None at a missing subject, otherwise cut to 5. |
| ChatAssistant.RouteIsFirstMatch | frontend/scripts/chat-new.js:106-517 | The chosen rule's guard holds and no earlier rule's guard holds. The greeting needs a whole-text match. |
| ChatAssistant.LateAnalyticsUnreachable | frontend/scripts/chat-new.js:391 | The second analytics rule is never chosen, since its guard repeats the first one's. |
| ChatAssistant.SecondPiece | frontend/scripts/chat-new.js:127-129 | `split(sep)[1]` exists iff the separator occurs. It is the text after the first occurrence, up to the next occurrence or the end, and so does not contain the separator. |
| ChatAssistant.PieceOf | frontend/scripts/chat-new.js:128 | The text before the first occurrence of the separator, or all of it when there is none. |
| ChatAssistant.NewTitlePiece | frontend/scripts/chat-new.js:127-129 | A non-empty new title is the trimmed second piece of the message at " to ". |
| ChatAssistant.NewTitleOfPhrase | frontend/scripts/chat-new.js:127-129 | In "a to b" with no other " to ", the new title is `b` trimmed. |
| ChatAssistant.UpdateReplyCorrect | frontend/scripts/chat-new.js:114-149 | A PUT is sent iff some title is mentioned and the new title is non-empty. It targets the first mentioned item. Its new title needs " to " in the message and is the trimmed text after the first " to ", up to the next one. Otherwise the reply is the guidance. |
| ChatAssistant.RemoveReplyCorrect | frontend/scripts/chat-new.js:151-176 | A DELETE is sent iff some title is mentioned, for the first such item. Otherwise the reply is the guidance. |
| ChatAssistant.LatestCorrect | frontend/scripts/chat-new.js:215-219 | The most recent item is an item no other item is dated after. Every earlier item is dated strictly before it, so it is the first of the latest. |
| ChatAssistant.RecentTeachers | frontend/scripts/chat-new.js:225-234 | The teachers of the recent homework are each listed once, exactly those with recent homework. |
| ChatAssistant.WeeklyReplyCorrect | frontend/scripts/chat-new.js:225-245 | The audit lists teachers iff there is recent homework, each teacher once. |
| ChatAssistant.RecentTeacherIds | frontend/scripts/chat-new.js:227-234 | A teacher id is among the recent homework's teachers iff some recent homework item has it. |
| ChatAssistant.SubjectKey | frontend/scripts/chat-new.js:296 | The key is never empty, and it is the subject when the subject is present and non-empty. |
| ChatAssistant.RankByKey | frontend/scripts/chat-new.js:248-255 | Every ranked key belongs to some item, and every item's key is ranked. |
| ChatAssistant.ClassRankingCorrect | frontend/scripts/chat-new.js:246-267 | One entry per class ('Unknown' for a missing name) with its count. Counts are non-increasing and add up to the number of items. |
| ChatAssistant.SubjectRankingCorrect | frontend/scripts/chat-new.js:293-310 | At most 5 entries in non-increasing order. Each is a subject key with its count of items. |
| ChatAssistant.SubjectRankingIsTop | frontend/scripts/chat-new.js:294-302 | The 5 shown are the top: every item's subject is either shown or has no more items than any shown subject. |
| ChatAssistant.TopEntries | frontend/scripts/chat-new.js:302 | A prefix of a ranking keeps its entries and its order. |
| ChatAssistant.SubjectKeysNonEmpty | frontend/scripts/chat-new.js:294-302 | No ranked subject key is empty. The ranking is non-empty iff there is content. |
| ChatAssistant.ContentTotalsCorrect | frontend/scripts/chat-new.js:271-274 | For "total content", or "how many" with "content", the total is the item count, and the homework, notes, announcement and assignment counts are each the number of items of that kind. Disjoint kinds together never exceed the total. |
| ChatAssistant.BreakdownsAddUp | frontend/scripts/chat-new.js:312-328 | The per-class homework and per-subject notes breakdowns add up to the totals they break down. |
| ChatAssistant.ClassHomeworkCorrect | frontend/scripts/chat-new.js:276-291 | A class homework count names Grade 6, Grade 5 or B.E. It counts exactly the homework whose class name contains that class, in order. |
| ChatAssistant.UploadOverrides | frontend/scripts/chat-new.js:352-361 | Later keyword checks win: grade 6 over grade 5 over b.e; english over science over math; assignment over homework. Defaults are General/General/notes. |
| ChatAssistant.UploadReplyCorrect | frontend/scripts/chat-new.js:331-389 | An upload is sent iff the message has a teacher id and a title. The id is the matched non-empty letter-and-digit piece of the lowercased text. Class, subject and type are the ones the keywords select (`UploadOverrides`). The title is the captured or quoted text, trimmed and quote-free, or "New Content". Otherwise the reply is the guidance. |
| ChatAssistant.TrimIsSlice | frontend/scripts/chat-new.js:350 | Trimming keeps only characters of the original. |
| ChatAssistant.ShowReplyCorrect | frontend/scripts/chat-new.js:453-517 | The shown items are an order-preserving subsequence, each passing the type, date and class conditions. The empty answer comes iff nothing passes. |
| ChatAssistant.AnalyticsSendsNothing | frontend/scripts/chat-new.js:269-329 | The analytics answers send no request. |
| ChatAssistant.ShowSendsNothing | frontend/scripts/chat-new.js:453-517 | Showing content sends no request. |
| ChatAssistant.RespondRequests | frontend/scripts/chat-new.js:106-517 | Every routed message is answered. PUT, DELETE and POST come only from the update, remove and upload rules. |
| ChatAssistant.RequestsOnlyFromTheirRules | frontend/scripts/chat-new.js:98-106 | An empty message and only an empty message is ignored. Requests come only from their own rules. |
| Chat.RouteIsFirstMatch | frontend/scripts/chat.js:231-429 | The chosen rule's guard holds and no earlier rule's does: greeting, help, update, remove, upload, filter. |
| Chat.StripBrackets | frontend/scripts/chat.js:272-273 | The result has no brackets and is the text with the brackets removed. |
| Chat.EarthToGlobe | frontend/scripts/chat.js:255-257 | With "earth" and "globe", an update is sent iff some title contains "earth". Its target is the first item whose lowercased title contains "earth", and the new title is "globe". |
| Chat.SocialToMath | frontend/scripts/chat.js:258-260 | Otherwise, with "social" and "math", an update is sent iff some title contains "social". Its target is the first item whose lowercased title contains "social", and the new title is "math". |
| Chat.WordsAfterToOfPhrase | frontend/scripts/chat.js:263-276 | When no word of `a` is "to", the new title of "a to b" is `b` in its original case with the brackets stripped. |
| Chat.PhraseWords | frontend/scripts/chat.js:263-270 | Splitting a phrase of single-space-separated words gives back those words. |
| Chat.UpdateByToWord | frontend/scripts/chat.js:263-297 | Outside the built-in phrasings, an update is sent iff a "to" title exists and a title is mentioned. It names the first mentioned item, and the new title has no brackets. |
| Chat.RemoveReplyCorrect | frontend/scripts/chat.js:298-328 | A DELETE is sent iff some item passes the remove test, for the first such item. |
| Chat.UploadReplyCorrect | frontend/scripts/chat.js:329-355 | The upload is always sent by CHAT001 with title "New {subject} {type}". Later keywords override earlier ones, and the defaults are General/General/notes. |
| Chat.FilterReplyCorrect | frontend/scripts/chat.js:372-428 | The listing is an order-preserving subsequence of exactly the items passing type, date and class. Nothing is found iff no item passes. |
| Chat.RequestedDateCorrect | frontend/scripts/chat.js:388-427 | The empty answer names a date iff the message spells out "november 5" or "november 16". The items were then filtered by that date, except that a "nov 5" elsewhere in a November 16th message filters by the 5th. |
| Chat.AbbreviatedDateNotNamed | frontend/scripts/chat.js:388-427 | "nov 5" filters by 2025-11-05, but the empty answer names no date. |
| Chat.UploadAlwaysSent | frontend/scripts/chat.js:329-355 | A message that reaches the upload rule always sends an upload by CHAT001. |
| Chat.RequestsOnlyFromTheirRules | frontend/scripts/chat.js:223-231 | An empty message and only an empty message is ignored. Requests come only from their own rules. |
| ContentPage.EscapeHtml | frontend/scripts/main.js:223-228 | The output has no `<` or `>`, and contains `"` iff the input does. |
| ContentPage.EscapeAttr | frontend/scripts/main.js:230-232 | The output has no `"`, and text without `"` is unchanged. Every character outside `&quot;` is kept, so `<` and `>` are not escaped. |
| ContentPage.EscapeAttrSafe | frontend/scripts/main.js:230-232 | The corrected attribute escaping: its output has no `"`. |
| ContentPage.EscapeHtmlLessThan | frontend/scripts/main.js:223-228 | Because `&` goes first, `<` escapes to exactly `&lt;`. |
| ContentPage.EscapeHtmlRoundTrip | frontend/scripts/main.js:223-228 | Decoding the references of escaped text gives the text back. |
| ContentPage.EscapeAttrSafeRoundTrip | frontend/scripts/main.js:230-232 | With `&` escaped first, an attribute value is read back as the original text. |
| ContentPage.EscapeAttrLosesText | frontend/scripts/main.js:230-232 | As written, `&quot;` and `"` escape alike, and `&quot;` is not read back. |
| ContentPage.AttachmentsFromField | frontend/scripts/main.js:147-149 | An empty field gives []. Otherwise entry k is the trimmed k-th comma-separated piece: one entry per comma plus one, each comma-free with no white space at its ends. |
| ContentPage.DatasetRoundTrip | frontend/scripts/main.js:182 | Joining with commas and splitting back, dropping empty parts, returns the list when no entry is empty or holds a comma. |
| ContentPage.FieldRoundTrip | frontend/scripts/main.js:147-149 | Submitting the joined list gives it back when every entry is a plain URL. |
| ContentPage.StatsBounded | frontend/scripts/main.js:42-52 | Each card counts its kind. Homework and announcements use exact lowercased type, notes the substring "note". Together they never exceed the total. |
| ContentPage.EditRoundTrip | frontend/scripts/main.js:168-188 | With corrected escaping (`EditDataSafe`), editing an item and saving it unchanged sends the item's own fields. |
| ContentPage.EditDataAgrees | frontend/scripts/main.js:82-88 | On items with no `&` in any field, the edit data read back through the escaping as written equals that through the corrected escaping. |
| ContentPage.EditRoundTripAsWritten | frontend/scripts/main.js:168-188 | As written, editing an item with no `&` and saving it unchanged sends the item's own fields. |
| ContentPage.EditAsWrittenLosesText | frontend/scripts/main.js:86 | As written, an item titled `&quot;` comes back from the edit button with another title, and saving it unchanged renames it. |
| ContentPage.PageState.constructor | frontend/scripts/main.js:18-19 | No item is being edited or marked for deletion, and both dialogs are closed. |
| ContentPage.PageState.OpenModal | frontend/scripts/main.js:112-127 | The dialog opens. Editing fills the form and sets the edit title; adding resets the form. |
| ContentPage.PageState.CloseModal | frontend/scripts/main.js:129-132 | The dialog closes and the edited id is reset to "". |
| ContentPage.PageState.EditContent | frontend/scripts/main.js:168-193 | The id is remembered and the dialog opens with the item's data as read back from the edit button's attributes, escaped as written. |
| ContentPage.PageState.Submit | frontend/scripts/main.js:137-163 | PUT to the edited id iff one is set, else POST; a PUT only comes from the open dialog. On success the dialog closes and the id is reset. |
| ContentPage.PageState.OpenDeleteModal | frontend/scripts/main.js:198-201 | The id is marked and the confirmation opens. |
| ContentPage.PageState.CancelDelete | frontend/scripts/main.js:203-206 | The confirmation closes and the mark is reset to "". |
| ContentPage.PageState.ConfirmDelete | frontend/scripts/main.js:208-218 | No request without a mark. Otherwise a DELETE for the marked id; on success the mark is reset. |
| ContentPage.PageState.WindowClick | frontend/scripts/main.js:107-110 | A backdrop click closes its dialog. The add/edit dialog also resets the edited id; the delete mark stays. |
| AgentUtils.MatchesAtIsRegex | backend/agent/utils.py:20-21 | The greedy word and space runs are the only way the month pattern matches at a position. |
| AgentUtils.FirstMatch | backend/agent/utils.py:21 | `re.search` finds the leftmost matching position, or none. |
| AgentUtils.MonthNumber | backend/agent/utils.py:12-17 | A recognised month name or abbreviation gives a month in 1..12. |
| AgentUtils.Upcoming | backend/agent/utils.py:32-36 | The date has the given month and day and is never before today. It is next year's only when this year's has passed. It fails iff this year's date is invalid, or it has passed and next year's is invalid. |
| AgentUtils.ParseNaturalDate | backend/agent/utils.py:4-43 | Every answer starts with a `YYYY-MM-DD`-shaped date, and only the month branch can fail. |
| AgentUtils.TodayWins | backend/agent/utils.py:8-9 | "today" in any case gives today's date. |
| AgentUtils.MonthBranchNotPast | backend/agent/utils.py:20-36 | A month with a day gives the ISO text of `Upcoming`: that date this year, or next year if it has passed, never before today. It fails iff `Upcoming` fails. |
| AgentUtils.IsoPassesThrough | backend/agent/utils.py:39-40 | A `YYYY-MM-DD`-prefixed input without a month pair is returned unchanged. |
| AgentUtils.OtherwiseToday | backend/agent/utils.py:43 | Every other input gives today. |
| AgentUtils.MonthDayAtStart | backend/agent/utils.py:20-24 | A leading "word spaces digits" is read as that month and day when the word is a month. |
| AgentUtils.ImpossibleDayFails | backend/agent/utils.py:32 | A day no month has, or February past the 29th, raises the uncaught error. |
| AgentUtils.FindContentByKeyword | backend/agent/utils.py:45-59 | The loop returns exactly the items passing the type and keyword test, in order. |
| AgentUtils.KeywordSearchCorrect | backend/agent/utils.py:45-59 | The result is an order-preserving subsequence. An item is in it iff its type matches case-insensitively (when given) and the keyword occurs in its lowercased title or description. |
| AgentUtils.MissingDescriptionIsEmpty | backend/agent/utils.py:54 | An item without a description is found by its title alone. |
| AgentTools.GetHomeworkByDate | backend/agent/tools.py:13-24 | The loop returns the homework dated exactly the target string, in order. |
| AgentTools.HomeworkByDateCorrect | backend/agent/tools.py:13-24 | The result is an order-preserving subsequence. An item is in it iff it is homework (lowercased type) and its date text equals the target. |
| AgentTools.GetTodaysHomework | backend/agent/tools.py:94-97 | Today's homework is the homework dated today's ISO date. |
| AgentTools.GetHomeworkByNaturalDate | backend/agent/tools.py:99-102 | The natural date's homework, or the date parser's error. |
| AgentTools.GetAnnouncementsByWeek | backend/agent/tools.py:26-43 | It fails iff some announcement has a malformed date. Otherwise it returns the announcements dated on or after this week's Monday, in order, skipping empty dates. |
| AgentTools.NoBadDateAll | backend/agent/tools.py:35-41 | The item-by-item date check holds exactly when no announcement has a malformed date. |
| AgentTools.WeekDecision | backend/agent/tools.py:36-41 | Per item: skip, keep iff on or after Monday, or the parser error for a malformed date. |
| AgentTools.StoredDatesNeverFail | backend/agent/tools.py:39 | ISO dates written by the store always parse. |
| AgentTools.WeekBounds | backend/agent/tools.py:32-41 | A kept announcement is never before Monday, and one dated today is always kept. |
| AgentTools.SearchContentByType | backend/agent/tools.py:83-92 | The loop returns the items whose type equals the argument case-insensitively, in order. |
| AgentTools.TypeSearchIgnoresCase | backend/agent/tools.py:87 | Type arguments equal up to case give the same result. |
| AgentTools.FindAnnouncementByKeyword | backend/agent/tools.py:104-107 | The result is the keyword search restricted to type "announcement". |
| AgentTools.GetContentSummary | backend/agent/tools.py:119-130 | The total is the length. Each kind counts exact case-sensitive type matches. |
| AgentTools.SummaryBounded | backend/agent/tools.py:119-130 | The three counts together never exceed the total. |
| AgentTools.SummaryIsCaseSensitive | backend/agent/tools.py:119-130 | An item typed "Homework" is found by the type search but not counted as homework. |
| AgentTools.UpdateHomeworkTitle | backend/agent/tools.py:45-53 | Success iff a row has the id, whose title alone changes. Otherwise nothing changes and the failure message is returned. |
| AgentTools.RemoveAnnouncement | backend/agent/tools.py:55-62 | Success iff a row had the id. That row is removed whatever its type. |
| AgentTools.UploadNotes | backend/agent/tools.py:64-81 | Always succeeds, appending a row of type "notes" dated today with the next id. Missing attachments become []. |
| AgentTools.SubjectScan | backend/agent/tools.py:109-117 | The scan yields an item of the list whose subject matches ignoring case, or the error. |
| AgentTools.SubjectScanFirst | backend/agent/tools.py:109-117 | It picks the first matching item. It fails iff a subject-less item comes before any match. No pick means no item matches. |
| AgentTools.ScanTodaysHomework | backend/agent/tools.py:112-115 | The loop returns exactly `SubjectScan`. |
| AgentTools.UpdateTodaysHomeworkBySubject | backend/agent/tools.py:109-117 | Only the first of today's homework with the subject gets the new title. With no match nothing changes and the reply names the subject. A subject-less item raises. |
| StudentDashboard.Greeting | backend/routers/dashboard.py:18-24 | Good Morning below 12, Good Afternoon for 12-17, Good Evening from 18. |
| StudentDashboard.ClockRoundTrip | backend/routers/dashboard.py:42 | The 12-hour clock text reads back as the 24-hour time it shows. |
| StudentDashboard.GetStudentStats | backend/routers/dashboard.py:26-50 | The user is "Student". Completed + in progress + to do = 100. The next class is an hour ahead. The assignments are the fixed three. |
| StudentDashboard.TodoRange | backend/routers/dashboard.py:28-30 | To do lies in -10..40 and is negative iff the two draws pass 100. |
| StudentDashboard.OnlyFirstUrgent | backend/routers/dashboard.py:45-49 | Three assignments, and only the first is urgent. |
| Records.NewSchoolContent | backend/models/data_model.py:5-14 | The required fields are as given. Optional ones are as given, else absent. Attachments default to [], and the date to today. |
| Records.SchoolContentDefaults | backend/models/data_model.py:6-14 | With only the required fields, the record takes every default. |
| Records.KindsDisjoint | frontend/scripts/main.js:43-46 | Homework, announcement and assignment exclude each other, and none of them is a note kind. |
| Store.ContentStore.Create | backend/core/sqlite_db.py:66-82 | The row gets the next id and is appended. Ids stay distinct. |
| Store.ContentStore.UpdateTitle | backend/core/sqlite_db.py:124-147 | None iff no row has the id. Otherwise exactly that row's title changes. |
| Store.ContentStore.Delete | backend/core/sqlite_db.py:149-154 | Returns whether a row had the id, and the rows become those without it. |
| Dates.WeekStartOrdinal | backend/agent/tools.py:33 | This week's Monday is a Monday (ordinal 1 modulo 7), no later than the date and no earlier than day 1. |
| Dates.OrdinalOrder | backend/agent/tools.py:40 | Date order is ordinal order. |
| Dates.ParseIsoRoundTrip | backend/agent/tools.py:39 | Parsing a date's ISO text gives the date back. |
| Dates.IsoInjective | backend/agent/tools.py:21 | Equal ISO texts mean equal dates. |
| Dates.IsoOrder | frontend/scripts/advanced-search.js:429-430 | Comparing ISO texts as strings is comparing the dates. |
| Patterns.SearchLeftmost | frontend/scripts/chat-new.js:333-334 | A regex search succeeds iff some position matches, and returns the leftmost match. |
| Patterns.TeacherIdShape | frontend/scripts/chat-new.js:347-348 | The teacher id is a non-empty letter-and-digit piece of the message, after "teacher" and separators. |
| Patterns.TitleCaptureShape | frontend/scripts/chat-new.js:350-351 | A labelled title has no comma or quote and is a piece of the message. |
| Patterns.AnyQuotedShape | frontend/scripts/chat-new.js:350 | A quoted title is non-empty, quote-free and a piece of the message. |
| Patterns.TitleCaptureImpliesLabel | frontend/scripts/chat-new.js:334-350 | Where the title capture matches, the looser title test matches too. |
| Ranking.TallyTotal | frontend/scripts/chat-new.js:248-253 | The group counts add up to the number of items. |
| Ranking.SortSorted | frontend/scripts/chat-new.js:254-255 | The ranking is in non-increasing order of count and keeps its length. |
| Ranking.InsertAfterEqual | frontend/scripts/chat-new.js:254-255 | Each insertion step places the entry after every entry of equal or greater count and before the lower ones at the end, so ties keep their order. |
| Ranking.PrefixIsTop | frontend/scripts/chat-new.js:302 | In a list sorted by non-increasing count, an entry after the first n counts no more than any of them. |
| Ranking.RankTop | frontend/scripts/chat-new.js:300-302 | A key left out of the first n entries of a ranking has no more occurrences than any key shown. |
| Ranking.SortByCount | frontend/scripts/chat-new.js:254-255 | The ranking is a permutation of the counted entries: the same multiset. |
| Ranking.RankCorrect | frontend/scripts/chat-new.js:248-255 | Every distinct key is listed once with its number of occurrences, in non-increasing order, and the counts add up to the length. |
| Common.FilterIdempotent | frontend/scripts/advanced-search.js:412-433 | Applying the same filter twice gives the same list as once. |
| Text.SplitJoin | frontend/scripts/main.js:182 | Splitting a comma-joined list of comma-free pieces gives the pieces back. |
| Text.JoinSplit | frontend/scripts/main.js:182 | Joining the pieces of a split gives the text back. |
| Text.Trim | frontend/scripts/main.js:148 | The trim is a slice `s[i..j]` with no JavaScript white space at either end, and everything before `i` and from `j` on is white space. It is empty iff the text is all white space. |

## Left out

- The rendering of every page, card, chat bubble and report text is not modelled. This covers `createSearchInterface`, `displayFilteredContent`, `renderContents`, `showSuggestions`, `showSearchHistory`, the markdown and emoji reply strings, and `marked.parse`. A reply is the answer chosen plus its data.
- `highlightSearchTerms` is not modelled. It only decorates the display.
- The `fetch` calls are not modelled. A request is a value in the reply, and the server's answer is the `ok` parameter. After a chat request the page is not reloaded in the model.
- Local storage of the search history is not modelled. The history is the `searchHistory` field, and the stored value is the constructor's argument.
- Timers, the search debounce, polling, and the `setSending` gate are not modelled, because they are event-loop concurrency.
- `notifications.js`, `analytics.js`, `dashboard.js`, `teachers.js` and `chat-formatter.js` are not part of this model. They are presentation, and the group counts of `analytics.js` repeat the chat rankings.
- The department analytics and teacher profile rules of the newer assistant use server-side data. They are routed (`RouteIsFirstMatch`), but their answers are not modelled.
- `new Date(...)` parsing is not modelled. "Most recent" compares the ISO date texts (`ChatAssistant.LatestCorrect`, with `Dates.IsoOrder` relating that to dates). The seven-day window is the `inLastWeek` parameter.
- The in-place `sort` of the content list at chat-new.js:218 is not modelled; only its first element is.
- `Math.round` averages and percentages are not modelled.
- The chat file preview and the base64 `FileReader` code are not modelled.
- Lowercasing covers ASCII letters only. JavaScript white space is modelled as its full set.
- AgentUtils.ParseNaturalDate: the regular-expression classes `\w`, `\d` and `\s` are modelled as ASCII only. Python's are Unicode in `str` patterns, so non-ASCII letters, digits and spaces are not recognised as such: for "nov ٥" (an Arabic-Indic five) the source returns November 5, while the model finds no month and returns today.
- The browser's reading back of attributes decodes only the four references that the escaping functions produce.
- `date.fromisoformat` is modelled in its strict `YYYY-MM-DD` form.
- `Ranking.RankCorrect`: keys are ordered by first occurrence before the stable sort. JavaScript `Object.entries` lists integer-like keys such as "5" first, in numeric order; that ordering is not modelled.
- The content store stands in for the sqlite layer. Only the id, row and title effects of insert, update and delete are modelled. SQL, JSON encoding of attachments, and the repository, service and router wrappers are not.
- `backend/agent/agent.py` and `backend/agent/prompt.py` are not part of this model. They are LLM library glue and prompt text.
- The scripts that fill the database and the agent test scripts are not part of this model.
- The subject suggestions, and `SubjectScan`, return a failure where the source lowercases a missing subject and raises a `TypeError` or `AttributeError`.
- `StudentDashboard.TodoRange`: a negative "to do" share is the source's own behaviour and is kept as such.
- `Records.NewSchoolContent`: the attachment list is a plain list, so an explicit `attachment_urls=None` is not represented. The store writes an empty or missing list as NULL and reads NULL back as [] (backend/core/sqlite_db.py:81 and 101), and the pages read a missing list as [].
- `TeacherProfile` is a record with four required text fields. No operation of the core reads it, so it has no lemma.

## Findings

| source | as written | input that shows it | evidently intended | confidence | as-written member | corrected member |
|---|---|---|---|---|---|---|
| frontend/scripts/main.js:230-232 (used at 82-88) | `escapeAttr` replaces `"` with `&quot;` but leaves `&` alone, so text that already looks like a character reference is read back changed | an item titled `&quot;`: the edit button carries `&quot;`, the browser reads back `"`, and saving the dialog renames the item to `"` | escape `&` as `&amp;` first, as `escapeHtml` does, so every attribute value reads back unchanged | not executed | ContentPage.EscapeAttrLosesText, ContentPage.EditAsWrittenLosesText | ContentPage.EscapeAttrSafeRoundTrip, ContentPage.EditRoundTrip |

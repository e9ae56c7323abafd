/** The search panel of the content page: a free-text search over the loaded
    content, a form of field filters, a list of suggestions while typing, and a
    short history of past searches. The panel's state is the class below; the page
    building, the debounce timer and local storage are not modelled. */
module SearchPanel {
  import opened Common
  import opened Text
  import opened Records

  /** Where a suggestion comes from, in the order the list is built. */
  datatype Icon = Book | User | File | History

  function IconRank(i: Icon): nat {
    match i
    case Book => 0
    case User => 1
    case File => 2
    case History => 3
  }

  datatype Suggestion = Suggestion(text: string, icon: Icon)

  /** The most searches the history keeps. */
  const HistoryLimit: nat := 10

  /** The most suggestions shown. */
  const SuggestionLimit: nat := 5

  /** The content types always offered as suggestions when they match. */
  const ContentTypes: seq<string> := ["homework", "notes", "announcement", "assignment"]

  // ----- history -----

  /** `addToSearchHistory(query)`: a new query goes to the front and the history is
      cut to its limit; a query already present leaves the history as it is. */
  function AddedToHistory(history: seq<string>, query: string): seq<string> {
    if query in history then history
    else
      var h := [query] + history;
      h[..if |h| < HistoryLimit then |h| else HistoryLimit]
  }

  predicate Distinct(s: seq<string>) {
    forall i, j :: 0 <= i < j < |s| ==> s[i] != s[j]
  }

  /** A new query becomes the first entry, the older entries follow in their order,
      and at most ten remain; a known query changes nothing. */
  lemma AddedToHistoryCorrect(history: seq<string>, query: string)
    ensures query in history ==> AddedToHistory(history, query) == history
    ensures query !in history ==>
      var h := AddedToHistory(history, query);
      |h| <= HistoryLimit && |h| >= 1 && h[0] == query
      && h[1..] == history[..|h| - 1]
      && (|history| < HistoryLimit ==> |h| == |history| + 1)
  {
    if query !in history {
      var h := AddedToHistory(history, query);
      assert h[1..] == ([query] + history)[1..|h|];
    }
  }

  /** The history never holds a query twice. */
  lemma AddedToHistoryDistinct(history: seq<string>, query: string)
    requires Distinct(history)
    ensures Distinct(AddedToHistory(history, query))
  {
    if query !in history {
      var h := AddedToHistory(history, query);
      forall i, j | 0 <= i < j < |h|
        ensures h[i] != h[j]
      {
        assert h[j] == history[j - 1];
        if i > 0 {
          assert h[i] == history[i - 1];
        }
      }
    }
  }

  // ----- free-text search -----

  /** A template-literal rendering of an optional field: `null` for an absent one. */
  function Shown(o: Option<string>): string {
    match o
    case None => "null"
    case Some(s) => s
  }

  /** The lowercased text a search looks in: the title, description, subject, class,
      teacher and type of the item, laid out as the template literal does. */
  function SearchableText(c: ContentItem): string {
    Lower("\n                " + c.title + " " + Shown(c.description) + " " + Shown(c.subject)
      + " \n                " + c.class_name + " " + c.teacher_id + " " + c.content_type + "\n            ")
  }

  /** Every term occurs in the item's searchable text. */
  predicate MatchesAllTerms(terms: seq<string>, c: ContentItem) {
    forall k :: 0 <= k < |terms| ==> Contains(SearchableText(c), terms[k])
  }

  function MatchesAllTermsPred(terms: seq<string>): ContentItem -> bool {
    c => MatchesAllTerms(terms, c)
  }

  /** The terms of a query: its lowercased text split at every single space. */
  function Terms(query: string): seq<string> {
    Split(Lower(query), ' ')
  }

  /** The result of searching for `query` (which is not blank). */
  function SearchResult(all: seq<ContentItem>, query: string): seq<ContentItem> {
    Filter(all, MatchesAllTermsPred(Terms(query)))
  }

  /** A search keeps the order of the content, and keeps an item exactly when every
      term of the query occurs in its searchable text. */
  lemma SearchResultCorrect(all: seq<ContentItem>, query: string)
    ensures IsSubseq(SearchResult(all, query), all)
    ensures forall c :: c in SearchResult(all, query) <==>
      c in all && forall k :: 0 <= k < |Terms(query)| ==> Contains(SearchableText(c), Terms(query)[k])
  {
    FilterIsSubseq(all, MatchesAllTermsPred(Terms(query)));
  }

  /** A one-word query that occurs in an item's lowercased title finds that item. */
  lemma SearchFindsTitleWord(all: seq<ContentItem>, word: string, c: ContentItem)
    requires c in all && ' ' !in word && Contains(Lower(c.title), Lower(word))
    ensures c in SearchResult(all, word)
  {
    TitleIsSearchable(c, Lower(word));
    OneWordTerms(word);
    assert MatchesAllTermsPred(Terms(word))(c);
  }

  /** Whatever occurs in the lowercased title occurs in the searchable text. */
  lemma TitleIsSearchable(c: ContentItem, t: string)
    requires Contains(Lower(c.title), t)
    ensures Contains(SearchableText(c), t)
  {
    var pre := "\n                ";
    var post := " " + Shown(c.description) + " " + Shown(c.subject)
      + " \n                " + c.class_name + " " + c.teacher_id + " " + c.content_type + "\n            ";
    assert pre + c.title + " " + Shown(c.description) + " " + Shown(c.subject)
      + " \n                " + c.class_name + " " + c.teacher_id + " " + c.content_type + "\n            "
      == pre + c.title + post;
    LowerAppend(pre + c.title, post);
    LowerAppend(pre, c.title);
    ContainsInfix(Lower(pre), Lower(c.title), Lower(post), t);
  }

  /** A query without spaces is a single term. */
  lemma OneWordTerms(word: string)
    requires ' ' !in word
    ensures Terms(word) == [Lower(word)]
  {
    SplitNoSeparator(Lower(word), ' ');
  }

  /** A query with two spaces in a row has an empty term, which every item contains. */
  lemma EmptyTermMatchesEverything(c: ContentItem)
    ensures Contains(SearchableText(c), "")
  {
    ContainsEmpty(SearchableText(c));
  }

  // ----- field filters -----

  /** The choices of the filter form: selected types, classes and subjects, and the
      two dates (empty when not set). */
  datatype FilterForm = FilterForm(
    types: seq<string>,
    classes: seq<string>,
    subjects: seq<string>,
    dateFrom: string,
    dateTo: string)

  /** A selection is inactive when nothing is selected or when "All" (the empty value)
      is selected first. */
  predicate Active(selected: seq<string>) {
    |selected| > 0 && selected[0] != ""
  }

  /** OR within a field, AND across the fields; dates compare as strings and both ends
      are inclusive. */
  predicate Passes(f: FilterForm, c: ContentItem) {
    (!Active(f.types) || Lower(c.content_type) in f.types)
    && (!Active(f.classes) || c.class_name in f.classes)
    && (!Active(f.subjects) || (c.subject.Some? && c.subject.value in f.subjects))
    && (f.dateFrom == "" || !LexLess(c.date_uploaded, f.dateFrom))
    && (f.dateTo == "" || !LexLess(f.dateTo, c.date_uploaded))
  }

  function PassesPred(f: FilterForm): ContentItem -> bool {
    c => Passes(f, c)
  }

  /** The form with nothing chosen lets every item through. */
  lemma EmptyFormPassesAll(c: ContentItem)
    ensures Passes(FilterForm([""], [""], [""], "", ""), c)
  {
  }

  /** For ISO dates of valid calendar dates, the string range test is the calendar
      range test. */
  lemma DateRangeIsCalendarRange(d: Dates.Date, from: Dates.Date, to: Dates.Date)
    requires Dates.Valid(d) && Dates.Valid(from) && Dates.Valid(to)
    ensures (!LexLess(Dates.Iso(d), Dates.Iso(from)) && !LexLess(Dates.Iso(to), Dates.Iso(d)))
      <==> (!Dates.Before(d, from) && !Dates.Before(to, d))
  {
    Dates.IsoOrder(d, from);
    Dates.IsoOrder(to, d);
  }

  /** Filtering keeps the order of the content and keeps exactly the items that pass
      every active filter. */
  lemma FilterResultCorrect(all: seq<ContentItem>, f: FilterForm)
    ensures IsSubseq(Filter(all, PassesPred(f)), all)
    ensures forall c :: c in Filter(all, PassesPred(f)) <==> c in all && Passes(f, c)
  {
    FilterIsSubseq(all, PassesPred(f));
  }

  // ----- suggestions -----

  /** The names among `names` whose lowercased text contains `ql`, as suggestions with
      the given icon, in order. */
  function Matching(names: seq<string>, ql: string, icon: Icon): (r: seq<Suggestion>)
    ensures forall i :: 0 <= i < |r| ==> r[i].icon == icon && r[i].text in names && Contains(Lower(r[i].text), ql)
    ensures forall k :: 0 <= k < |names| && Contains(Lower(names[k]), ql) ==> HasText(r, names[k])
    decreases |names|
  {
    if names == [] then []
    else
      var last := names[|names| - 1];
      var init := Matching(names[..|names| - 1], ql, icon);
      var r := init + (if Contains(Lower(last), ql) then [Suggestion(last, icon)] else []);
      assert forall k :: 0 <= k < |names| - 1 ==> names[k] == names[..|names| - 1][k];
      HasTextExtend(init, if Contains(Lower(last), ql) then [Suggestion(last, icon)] else []);
      assert Contains(Lower(last), ql) ==> r[|init|].text == last;
      r
  }

  /** A text already suggested stays suggested when more suggestions follow. */
  lemma HasTextExtend(acc: seq<Suggestion>, more: seq<Suggestion>)
    ensures forall t :: HasText(acc, t) ==> HasText(acc + more, t)
  {
    forall t | HasText(acc, t)
      ensures HasText(acc + more, t)
    {
      var i :| 0 <= i < |acc| && acc[i].text == t;
      assert (acc + more)[i] == acc[i];
    }
  }

  /** The subject suggestions; None when an item has no subject, which makes the
      lowercasing of the subject fail. */
  function SubjectMatching(subjects: seq<Option<string>>, ql: string): (r: Option<seq<Suggestion>>)
    ensures r.None? <==> None in subjects
    ensures r.Some? ==> forall i :: 0 <= i < |r.value| ==>
      r.value[i].icon == Book && Some(r.value[i].text) in subjects && Contains(Lower(r.value[i].text), ql)
    ensures r.Some? ==> forall k :: 0 <= k < |subjects| && subjects[k].Some? && Contains(Lower(subjects[k].value), ql) ==>
      HasText(r.value, subjects[k].value)
    decreases |subjects|
  {
    if subjects == [] then Some([])
    else
      var init := subjects[..|subjects| - 1];
      var last := subjects[|subjects| - 1];
      assert subjects == init + [last];
      var m := SubjectMatching(init, ql);
      if m.None? || last.None? then None
      else
        var added := if Contains(Lower(last.value), ql) then [Suggestion(last.value, Book)] else [];
        assert forall k :: 0 <= k < |subjects| - 1 ==> subjects[k] == init[k];
        HasTextExtend(m.value, added);
        assert Contains(Lower(last.value), ql) ==> (m.value + added)[|m.value|].text == last.value;
        Some(m.value + added)
  }

  /** One more subject extends the subject suggestions. */
  lemma SubjectMatchingSnoc(subjects: seq<Option<string>>, s: string, ql: string)
    requires SubjectMatching(subjects, ql).Some?
    ensures Contains(Lower(s), ql) ==>
      SubjectMatching(subjects + [Some(s)], ql) == Some(SubjectMatching(subjects, ql).value + [Suggestion(s, Book)])
    ensures !Contains(Lower(s), ql) ==> SubjectMatching(subjects + [Some(s)], ql) == SubjectMatching(subjects, ql)
  {
    assert (subjects + [Some(s)])[..|subjects|] == subjects;
    assert SubjectMatching(subjects, ql).value + [] == SubjectMatching(subjects, ql).value;
  }

  /** There is already a suggestion with text `t`. */
  predicate HasText(acc: seq<Suggestion>, t: string) {
    exists i :: 0 <= i < |acc| && acc[i].text == t
  }

  /** The history entries that contain `ql` and are not already suggested, appended
      one by one. */
  function WithHistory(acc: seq<Suggestion>, h: seq<string>, ql: string): seq<Suggestion>
    decreases |h|
  {
    if h == [] then acc
    else
      var next := if Contains(Lower(h[0]), ql) && !HasText(acc, h[0]) then acc + [Suggestion(h[0], History)] else acc;
      WithHistory(next, h[1..], ql)
  }

  function SubjectOf(c: ContentItem): Option<string> { c.subject }
  function TeacherOf(c: ContentItem): string { c.teacher_id }

  /** The list `generateSuggestions(query)` builds before it is cut: subjects, then
      teachers, then the fixed types, then new history entries; None when the
      lowercasing of a subject fails. */
  function FullList(all: seq<ContentItem>, history: seq<string>, ql: string): Option<seq<Suggestion>> {
    match SubjectMatching(Dedup(Map(all, SubjectOf)), ql)
    case None => None
    case Some(subjects) =>
      Some(WithHistory(subjects + Matching(Dedup(Map(all, TeacherOf)), ql, User)
        + Matching(ContentTypes, ql, File), history, ql))
  }

  /** `generateSuggestions(query)`: the full list cut to five. */
  function Suggestions(all: seq<ContentItem>, history: seq<string>, query: string): Option<seq<Suggestion>> {
    match FullList(all, history, Lower(query))
    case None => None
    case Some(full) => Some(full[..if |full| < SuggestionLimit then |full| else SuggestionLimit])
  }

  /** Every subject, teacher, content type and history entry that contains `ql` has
      a suggestion with its text in `list`. */
  predicate Complete(list: seq<Suggestion>, all: seq<ContentItem>, history: seq<string>, ql: string) {
    (forall c :: c in all && c.subject.Some? && Contains(Lower(c.subject.value), ql) ==> HasText(list, c.subject.value))
    && (forall c :: c in all && Contains(Lower(c.teacher_id), ql) ==> HasText(list, c.teacher_id))
    && (forall t :: t in ContentTypes && Contains(Lower(t), ql) ==> HasText(list, t))
    && (forall k :: 0 <= k < |history| && Contains(Lower(history[k]), ql) ==> HasText(list, history[k]))
  }

  /** A text suggested stays suggested when suggestions come before it. */
  lemma HasTextShift(pre: seq<Suggestion>, acc: seq<Suggestion>)
    ensures forall t :: HasText(acc, t) ==> HasText(pre + acc, t)
  {
    forall t | HasText(acc, t)
      ensures HasText(pre + acc, t)
    {
      var i :| 0 <= i < |acc| && acc[i].text == t;
      assert (pre + acc)[|pre| + i] == acc[i];
    }
  }

  /** Appending history entries keeps what was there and adds only entries from the
      history that match and repeat no earlier text. */
  lemma {:induction false} WithHistoryCorrect(acc: seq<Suggestion>, h: seq<string>, ql: string)
    ensures var w := WithHistory(acc, h, ql);
      |w| >= |acc| && w[..|acc|] == acc
      && forall i :: |acc| <= i < |w| ==>
        w[i].icon == History && w[i].text in h && Contains(Lower(w[i].text), ql)
        && forall j :: 0 <= j < i ==> w[j].text != w[i].text
    ensures forall k :: 0 <= k < |h| && Contains(Lower(h[k]), ql) ==> HasText(WithHistory(acc, h, ql), h[k])
    decreases |h|
  {
    if h != [] {
      var add := Contains(Lower(h[0]), ql) && !HasText(acc, h[0]);
      var next := if add then acc + [Suggestion(h[0], History)] else acc;
      WithHistoryCorrect(next, h[1..], ql);
      var w := WithHistory(acc, h, ql);
      assert w == WithHistory(next, h[1..], ql);
      assert w[..|acc|] == next[..|next|][..|acc|];
      forall k | 0 <= k < |h| && Contains(Lower(h[k]), ql)
        ensures HasText(w, h[k])
      {
        if k == 0 {
          if add {
            assert w[|acc|] == next[|acc|];
          } else {
            var i :| 0 <= i < |acc| && acc[i].text == h[0];
            assert w[i] == acc[i];
          }
        } else {
          assert h[k] == h[1..][k - 1];
        }
      }
      forall i | |acc| <= i < |w|
        ensures w[i].icon == History && w[i].text in h && Contains(Lower(w[i].text), ql)
        ensures forall j :: 0 <= j < i ==> w[j].text != w[i].text
      {
        if i < |next| {
          assert add && i == |acc|;
          assert w[i] == next[i];
          forall j | 0 <= j < i
            ensures w[j].text != w[i].text
          {
            assert w[j] == acc[j];
          }
        } else {
          assert w[i].text in h[1..];
        }
      }
    }
  }

  /** Where a suggestion comes from: an item's subject, an item's teacher, the fixed
      types, or the history. */
  predicate Origin(s: Suggestion, all: seq<ContentItem>, history: seq<string>) {
    match s.icon
    case Book => exists c :: c in all && c.subject == Some(s.text)
    case User => exists c :: c in all && c.teacher_id == s.text
    case File => s.text in ContentTypes
    case History => s.text in history
  }

  /** Each subject suggestion carries the book icon, contains the query and names
      the subject of some item. */
  lemma SubjectOrigins(all: seq<ContentItem>, history: seq<string>, ql: string, subjects: seq<Suggestion>)
    requires SubjectMatching(Dedup(Map(all, SubjectOf)), ql) == Some(subjects)
    ensures forall i :: 0 <= i < |subjects| ==>
      subjects[i].icon == Book && Contains(Lower(subjects[i].text), ql) && Origin(subjects[i], all, history)
    ensures forall c :: c in all && c.subject.Some? && Contains(Lower(c.subject.value), ql) ==> HasText(subjects, c.subject.value)
  {
    var d := Dedup(Map(all, SubjectOf));
    forall c | c in all && c.subject.Some? && Contains(Lower(c.subject.value), ql)
      ensures HasText(subjects, c.subject.value)
    {
      var k :| 0 <= k < |all| && all[k] == c;
      assert Map(all, SubjectOf)[k] == c.subject;
      assert c.subject in Map(all, SubjectOf);
      assert c.subject in d;
      var k' :| 0 <= k' < |d| && d[k'] == c.subject;
    }
    forall i | 0 <= i < |subjects|
      ensures Origin(subjects[i], all, history)
    {
      assert Some(subjects[i].text) in Map(all, SubjectOf);
      var k :| 0 <= k < |all| && Map(all, SubjectOf)[k] == Some(subjects[i].text);
      assert all[k] in all;
    }
  }

  /** Each teacher suggestion carries the user icon, contains the query and names the
      teacher of some item. */
  lemma TeacherOrigins(all: seq<ContentItem>, history: seq<string>, ql: string, teachers: seq<Suggestion>)
    requires teachers == Matching(Dedup(Map(all, TeacherOf)), ql, User)
    ensures forall i :: 0 <= i < |teachers| ==>
      teachers[i].icon == User && Contains(Lower(teachers[i].text), ql) && Origin(teachers[i], all, history)
    ensures forall c :: c in all && Contains(Lower(c.teacher_id), ql) ==> HasText(teachers, c.teacher_id)
  {
    var d := Dedup(Map(all, TeacherOf));
    forall c | c in all && Contains(Lower(c.teacher_id), ql)
      ensures HasText(teachers, c.teacher_id)
    {
      var k :| 0 <= k < |all| && all[k] == c;
      assert Map(all, TeacherOf)[k] == c.teacher_id;
      assert c.teacher_id in Map(all, TeacherOf);
      assert c.teacher_id in d;
      var k' :| 0 <= k' < |d| && d[k'] == c.teacher_id;
    }
    forall i | 0 <= i < |teachers|
      ensures Origin(teachers[i], all, history)
    {
      assert teachers[i].text in Map(all, TeacherOf);
      var k :| 0 <= k < |all| && Map(all, TeacherOf)[k] == teachers[i].text;
      assert all[k] in all;
    }
  }

  /** The list before the history is added: subject, teacher and type suggestions,
      in that order, each containing the lowercased query, and none missing. */
  lemma BaseCorrect(all: seq<ContentItem>, history: seq<string>, ql: string,
                    subjects: seq<Suggestion>, teachers: seq<Suggestion>, types: seq<Suggestion>)
    requires SubjectMatching(Dedup(Map(all, SubjectOf)), ql) == Some(subjects)
    requires teachers == Matching(Dedup(Map(all, TeacherOf)), ql, User)
    requires types == Matching(ContentTypes, ql, File)
    ensures var base := subjects + teachers + types;
      forall i :: 0 <= i < |base| ==>
        Contains(Lower(base[i].text), ql) && Origin(base[i], all, history)
        && IconRank(base[i].icon) == (if i < |subjects| then 0 else if i < |subjects| + |teachers| then 1 else 2)
    ensures var base := subjects + teachers + types;
      (forall c :: c in all && c.subject.Some? && Contains(Lower(c.subject.value), ql) ==> HasText(base, c.subject.value))
      && (forall c :: c in all && Contains(Lower(c.teacher_id), ql) ==> HasText(base, c.teacher_id))
      && (forall t :: t in ContentTypes && Contains(Lower(t), ql) ==> HasText(base, t))
  {
    SubjectOrigins(all, history, ql, subjects);
    TeacherOrigins(all, history, ql, teachers);
    var base := subjects + teachers + types;
    forall i | 0 <= i < |base|
      ensures Contains(Lower(base[i].text), ql) && Origin(base[i], all, history)
      ensures IconRank(base[i].icon) == (if i < |subjects| then 0 else if i < |subjects| + |teachers| then 1 else 2)
    {
      Concat3At(subjects, teachers, types, i);
    }
    HasTextExtend(subjects, teachers + types);
    ConcatAssoc(subjects, teachers, types);
    HasTextExtend(teachers, types);
    HasTextShift(subjects, teachers + types);
    HasTextShift(subjects + teachers, types);
    forall t | t in ContentTypes && Contains(Lower(t), ql)
      ensures HasText(types, t)
    {
      var k :| 0 <= k < |ContentTypes| && ContentTypes[k] == t;
    }
  }

  /** The suggestions are unavailable exactly when some item has no subject. */
  lemma SuggestionsFail(all: seq<ContentItem>, history: seq<string>, query: string)
    ensures Suggestions(all, history, query).None? <==> exists c :: c in all && c.subject.None?
  {
    if exists c :: c in all && c.subject.None? {
      var c :| c in all && c.subject.None?;
      var k :| 0 <= k < |all| && all[k] == c;
      assert Map(all, SubjectOf)[k] == None;
    }
  }

  /** The suggestions are the first five of the full list, which misses no matching
      subject, teacher, type or history entry; so when that list has five entries or
      fewer, nothing matching is left out. */
  lemma SuggestionsFirstFive(all: seq<ContentItem>, history: seq<string>, query: string)
    ensures Suggestions(all, history, query).Some? ==>
      var full := FullList(all, history, Lower(query)).value;
      var r := Suggestions(all, history, query).value;
      |r| == (if |full| < SuggestionLimit then |full| else SuggestionLimit) && r == full[..|r|]
      && Complete(full, all, history, Lower(query))
      && (|full| <= SuggestionLimit ==> Complete(r, all, history, Lower(query)))
  {
    var ql := Lower(query);
    if Suggestions(all, history, query).Some? {
      var subjects := SubjectMatching(Dedup(Map(all, SubjectOf)), ql).value;
      var teachers := Matching(Dedup(Map(all, TeacherOf)), ql, User);
      var types := Matching(ContentTypes, ql, File);
      var full := WithHistory(subjects + teachers + types, history, ql);
      FullComplete(all, history, ql, subjects, teachers, types, full);
      var r := Suggestions(all, history, query).value;
      if |full| <= SuggestionLimit {
        assert r == full;
      }
    }
  }

  /** The suggestions are grouped by origin in the order subjects, teachers, types,
      history; each contains the lowercased query and comes from the content, the
      fixed types or the history; a history entry is never a repeat of an earlier
      suggestion; at most five are shown; and the list is unavailable exactly when
      some item has no subject. */
  lemma SuggestionsCorrect(all: seq<ContentItem>, history: seq<string>, query: string)
    ensures Suggestions(all, history, query).None? <==> exists c :: c in all && c.subject.None?
    ensures Suggestions(all, history, query).Some? ==>
      var r := Suggestions(all, history, query).value;
      |r| <= SuggestionLimit
      && (forall i :: 0 <= i < |r| ==> Contains(Lower(r[i].text), Lower(query)) && Origin(r[i], all, history))
      && (forall i, j :: 0 <= i < j < |r| ==> IconRank(r[i].icon) <= IconRank(r[j].icon))
      && (forall i, j :: 0 <= j < i < |r| && r[i].icon == History ==> r[j].text != r[i].text)
  {
    SuggestionsFail(all, history, query);
    var ql := Lower(query);
    if Suggestions(all, history, query).Some? {
      var subjects := SubjectMatching(Dedup(Map(all, SubjectOf)), ql).value;
      var teachers := Matching(Dedup(Map(all, TeacherOf)), ql, User);
      var types := Matching(ContentTypes, ql, File);
      var base := subjects + teachers + types;
      var full := WithHistory(base, history, ql);
      FullCorrect(all, history, ql, subjects, teachers, types, full);
      var r := Suggestions(all, history, query).value;
      assert r == full[..|r|];
      forall i | 0 <= i < |r|
        ensures Contains(Lower(r[i].text), ql) && Origin(r[i], all, history)
      {
        assert r[i] == full[i];
      }
      forall i, j | 0 <= i < j < |r|
        ensures IconRank(r[i].icon) <= IconRank(r[j].icon)
      {
        assert r[i] == full[i] && r[j] == full[j];
      }
      forall i, j | 0 <= j < i < |r| && r[i].icon == History
        ensures r[j].text != r[i].text
      {
        assert r[i] == full[i] && r[j] == full[j];
      }
    }
  }

  /** The rank of the origin of the suggestion at position `i`. */
  function GroupAt(i: nat, subjects: nat, teachers: nat, base: nat): nat {
    if i < subjects then 0 else if i < subjects + teachers then 1 else if i < base then 2 else 3
  }

  /** The full list, before it is cut to five, misses no matching subject, teacher,
      type or history entry. */
  lemma FullComplete(all: seq<ContentItem>, history: seq<string>, ql: string,
                     subjects: seq<Suggestion>, teachers: seq<Suggestion>, types: seq<Suggestion>, full: seq<Suggestion>)
    requires SubjectMatching(Dedup(Map(all, SubjectOf)), ql) == Some(subjects)
    requires teachers == Matching(Dedup(Map(all, TeacherOf)), ql, User)
    requires types == Matching(ContentTypes, ql, File)
    requires full == WithHistory(subjects + teachers + types, history, ql)
    ensures Complete(full, all, history, ql)
  {
    var base := subjects + teachers + types;
    BaseCorrect(all, history, ql, subjects, teachers, types);
    WithHistoryCorrect(base, history, ql);
    assert full == base + full[|base|..];
    HasTextExtend(base, full[|base|..]);
  }

  /** The full list, before it is cut to five: sound, grouped, and without repeated
      history texts. */
  lemma FullCorrect(all: seq<ContentItem>, history: seq<string>, ql: string,
                    subjects: seq<Suggestion>, teachers: seq<Suggestion>, types: seq<Suggestion>, full: seq<Suggestion>)
    requires SubjectMatching(Dedup(Map(all, SubjectOf)), ql) == Some(subjects)
    requires teachers == Matching(Dedup(Map(all, TeacherOf)), ql, User)
    requires types == Matching(ContentTypes, ql, File)
    requires full == WithHistory(subjects + teachers + types, history, ql)
    ensures (forall i :: 0 <= i < |full| ==> Contains(Lower(full[i].text), ql) && Origin(full[i], all, history))
      && (forall i, j :: 0 <= i < j < |full| ==> IconRank(full[i].icon) <= IconRank(full[j].icon))
      && (forall i, j :: 0 <= j < i < |full| && full[i].icon == History ==> full[j].text != full[i].text)
  {
    var base := subjects + teachers + types;
    BaseCorrect(all, history, ql, subjects, teachers, types);
    WithHistoryCorrect(base, history, ql);
    forall i | 0 <= i < |full|
      ensures Contains(Lower(full[i].text), ql) && Origin(full[i], all, history)
      ensures IconRank(full[i].icon) == GroupAt(i, |subjects|, |teachers|, |base|)
    {
      if i < |base| {
        assert full[i] == base[i];
      }
    }
  }

  // ----- the panel -----

  /** `resultsCount` wording: "1 result found", otherwise "N results found". */
  function ResultsLabel(count: nat): string {
    NatToString(count) + " result" + (if count != 1 then "s" else "") + " found"
  }

  /** The label opens with the digits of the count, which read back as the count;
      it says "results" exactly when the count is not one, and ends in " found". */
  lemma ResultsLabelWording(count: nat)
    ensures var s := ResultsLabel(count);
      exists k :: 0 < k < |s| && (forall i :: 0 <= i < k ==> IsDigit(s[i])) && s[k] == ' '
        && DecimalValue(s[..k]) == count
    ensures Contains(ResultsLabel(count), "results") <==> count != 1
    ensures var s := ResultsLabel(count); |s| >= 6 && s[|s| - 6..] == " found"
  {
    var n := NatToString(count);
    var t := if count != 1 then " results found" else " result found";
    assert ResultsLabel(count) == n + t;
    DecimalRoundTrip(count);
    LeadingNumber(n, t);
    ResultsLabelPlural(count);
  }

  /** "results" appears in the label exactly when the count is not one. */
  lemma ResultsLabelPlural(count: nat)
    ensures Contains(ResultsLabel(count), "results") <==> count != 1
  {
    if count != 1 {
      assert ResultsLabel(count) == NatToString(count) + " results found";
      PluralSaysResults(NatToString(count));
    } else {
      assert ResultsLabel(count) == "1 result found";
      SingularHasNoResults();
    }
  }

  lemma PluralSaysResults(n: string)
    ensures Contains(n + " results found", "results")
  {
    var t := " results found";
    assert t[1..8] == "results";
    ContainsAfter(n, t, "results", 1);
  }

  /** Digits followed by a space: the digits are exactly the text before the space. */
  lemma LeadingNumber(n: string, t: string)
    requires |n| >= 1 && (forall i :: 0 <= i < |n| ==> IsDigit(n[i]))
    requires |t| >= 6 && t[0] == ' '
    ensures var s := n + t;
      0 < |n| < |s| && (forall i :: 0 <= i < |n| ==> IsDigit(s[i])) && s[|n|] == ' '
        && s[..|n|] == n && s[|s| - 6..] == t[|t| - 6..]
  {
    var s := n + t;
    assert s[..|n|] == n;
    assert s[|s| - 6..] == t[|t| - 6..];
  }

  /** An occurrence in the second part of a concatenation is an occurrence in the whole. */
  lemma ContainsAfter(n: string, t: string, w: string, i: nat)
    requires i + |w| <= |t| && t[i..i + |w|] == w
    ensures Contains(n + t, w)
  {
    assert (n + t)[|n| + i..|n| + i + |w|] == t[i..i + |w|];
    assert OccursAt(n + t, w, |n| + i);
  }

  /** "1 result found" has no occurrence of "results". */
  lemma SingularHasNoResults()
    ensures !Contains("1 result found", "results")
  {
    var s := "1 result found";
    forall i: nat | i <= |s|
      ensures !OccursAt(s, "results", i)
    {
      if i + 7 <= |s| {
        assert s[i..i + 7][0] == s[i];
        assert s[i..i + 7][6] == s[i + 6];
      }
    }
  }

  /** The subject loop of `generateSuggestions`; None at the first missing subject. */
  method CollectSubjects(subjects: seq<Option<string>>, ql: string) returns (r: Option<seq<Suggestion>>)
    ensures r == SubjectMatching(subjects, ql)
  {
    var suggestions: seq<Suggestion> := [];
    var i := 0;
    while i < |subjects|
      invariant 0 <= i <= |subjects|
      invariant SubjectMatching(subjects[..i], ql) == Some(suggestions)
    {
      match subjects[i]
      case None =>
        assert subjects[..i + 1] == subjects[..i] + [None];
        return None;
      case Some(s) =>
        SubjectMatchingSnoc(subjects[..i], s, ql);
        assert subjects[..i + 1] == subjects[..i] + [Some(s)];
        if Contains(Lower(s), ql) {
          suggestions := suggestions + [Suggestion(s, Book)];
        }
      i := i + 1;
    }
    assert subjects[..i] == subjects;
    r := Some(suggestions);
  }

  /** The teacher and content-type loops of `generateSuggestions`. */
  method CollectMatching(names: seq<string>, ql: string, icon: Icon) returns (r: seq<Suggestion>)
    ensures r == Matching(names, ql, icon)
  {
    r := [];
    var i := 0;
    while i < |names|
      invariant 0 <= i <= |names|
      invariant r == Matching(names[..i], ql, icon)
    {
      assert names[..i + 1][..i] == names[..i];
      if Contains(Lower(names[i]), ql) {
        r := r + [Suggestion(names[i], icon)];
      }
      i := i + 1;
    }
    assert names[..i] == names;
  }

  /** The history loop of `generateSuggestions`: a history entry is added when it
      matches and no suggestion so far has its text. */
  method CollectHistory(acc: seq<Suggestion>, history: seq<string>, ql: string) returns (r: seq<Suggestion>)
    ensures r == WithHistory(acc, history, ql)
  {
    r := acc;
    var i := 0;
    while i < |history|
      invariant 0 <= i <= |history|
      invariant WithHistory(r, history[i..], ql) == WithHistory(acc, history, ql)
    {
      assert history[i..][1..] == history[i + 1..];
      if Contains(Lower(history[i]), ql) && !HasText(r, history[i]) {
        r := r + [Suggestion(history[i], History)];
      }
      i := i + 1;
    }
  }

  class AdvancedSearch {
    var searchHistory: seq<string>
    var allContent: seq<ContentItem>
    var filteredContent: seq<ContentItem>

    /** What is shown is always drawn, in order, from the loaded content. */
    ghost predicate Valid()
      reads this
    {
      IsSubseq(filteredContent, allContent)
    }

    /** The history comes from local storage; no content is loaded yet. */
    constructor (storedHistory: seq<string>)
      ensures Valid()
      ensures searchHistory == storedHistory && allContent == [] && filteredContent == []
    {
      searchHistory := storedHistory;
      allContent := [];
      filteredContent := [];
    }

    /** `loadContent`: the fetched content replaces the content and the shown list. */
    method LoadContent(items: seq<ContentItem>)
      modifies this
      ensures Valid()
      ensures allContent == items && filteredContent == items && searchHistory == old(searchHistory)
    {
      allContent := items;
      filteredContent := items;
      PrefixIsSubseq(items, |items|);
      assert items[..|items|] == items;
    }

    /** `addToSearchHistory` */
    method AddToSearchHistory(query: string)
      modifies this
      ensures searchHistory == AddedToHistory(old(searchHistory), query)
      ensures allContent == old(allContent) && filteredContent == old(filteredContent)
    {
      if query !in searchHistory {
        searchHistory := [query] + searchHistory;
        searchHistory := searchHistory[..if |searchHistory| < HistoryLimit then |searchHistory| else HistoryLimit];
      }
    }

    /** `clearSearchHistory` */
    method ClearSearchHistory()
      modifies this
      ensures searchHistory == []
      ensures allContent == old(allContent) && filteredContent == old(filteredContent)
    {
      searchHistory := [];
    }

    /** `performSearch`: a blank query shows all content and leaves the history alone;
        any other query is remembered and its matches are shown. */
    method PerformSearch(query: string)
      requires Valid()
      modifies this
      ensures Valid() && allContent == old(allContent)
      ensures Trim(query) == "" ==> filteredContent == allContent && searchHistory == old(searchHistory)
      ensures Trim(query) != "" ==>
        filteredContent == SearchResult(allContent, query)
        && searchHistory == AddedToHistory(old(searchHistory), query)
    {
      if Trim(query) == "" {
        filteredContent := allContent;
        PrefixIsSubseq(allContent, |allContent|);
        assert allContent[..|allContent|] == allContent;
        return;
      }
      AddToSearchHistory(query);
      filteredContent := Filter(allContent, MatchesAllTermsPred(Terms(query)));
      SearchResultCorrect(allContent, query);
    }

    /** `applyFilters` */
    method ApplyFilters(f: FilterForm)
      requires Valid()
      modifies this
      ensures Valid()
      ensures filteredContent == Filter(allContent, PassesPred(f))
      ensures allContent == old(allContent) && searchHistory == old(searchHistory)
    {
      filteredContent := Filter(allContent, PassesPred(f));
      FilterResultCorrect(allContent, f);
    }

    /** `clearFilters`: everything is shown again. */
    method ClearFilters()
      requires Valid()
      modifies this
      ensures Valid()
      ensures filteredContent == allContent
      ensures allContent == old(allContent) && searchHistory == old(searchHistory)
    {
      filteredContent := allContent;
      PrefixIsSubseq(allContent, |allContent|);
      assert allContent[..|allContent|] == allContent;
    }

    /** `updateResultsCount` */
    function ResultsCount(): string
      reads this
    {
      ResultsLabel(|filteredContent|)
    }

    /** `generateSuggestions`, built by the same loops as the page; None when an item
        without a subject makes the lowercasing fail. */
    method GenerateSuggestions(query: string) returns (r: Option<seq<Suggestion>>)
      ensures r == Suggestions(allContent, searchHistory, query)
    {
      var ql := Lower(query);
      var subjects := CollectSubjects(Dedup(Map(allContent, SubjectOf)), ql);
      if subjects.None? {
        return None;
      }
      var teachers := CollectMatching(Dedup(Map(allContent, TeacherOf)), ql, User);
      var types := CollectMatching(ContentTypes, ql, File);
      var full := CollectHistory(subjects.value + teachers + types, searchHistory, ql);
      r := Some(full[..if |full| < SuggestionLimit then |full| else SuggestionLimit]);
    }
  }
}

/** The agent's tools over the school content: date, week and type queries, the
    content summary, title updates, announcement removal and notes upload. The list
    the service returns is the parameter `contents` (or the store's rows), the clock
    is `today`, and an exception the source does not catch becomes a `Failure`. */
module AgentTools {
  import opened Common
  import opened Text
  import opened Dates
  import opened Records
  import opened Store
  import opened AgentUtils

  /** The `{'success': ..., 'message': ..., 'content': ...}` dictionaries. */
  datatype ToolResult = ToolResult(success: bool, message: string, content: Option<ContentItem>)

  /** The exceptions the tools let escape. */
  datatype ToolError = DateValueError | SubjectIsNone

  // ----- get_homework_by_date -----

  /** Homework (type compared lowercased) dated exactly `target` as text. */
  predicate HomeworkOn(c: ContentItem, target: string) {
    Lower(c.content_type) == "homework" && c.date_uploaded == target
  }

  function HomeworkOnPred(target: string): ContentItem -> bool {
    c => HomeworkOn(c, target)
  }

  /** `get_homework_by_date`: the loop keeps today's matches in list order. */
  method GetHomeworkByDate(contents: seq<ContentItem>, target: string) returns (homework: seq<ContentItem>)
    ensures homework == Filter(contents, HomeworkOnPred(target))
  {
    var p := HomeworkOnPred(target);
    homework := [];
    var i := 0;
    while i < |contents|
      invariant 0 <= i <= |contents|
      invariant homework == Filter(contents[..i], p)
    {
      var c := contents[i];
      FilterPrefixStep(contents, i, p);
      if p(c) {
        homework := homework + [c];
      }
      i := i + 1;
    }
    assert contents[..|contents|] == contents;
  }

  /** Exactly the homework dated `target`, in list order; a date in another form (or
      with a time) is never equal to it. */
  lemma HomeworkByDateCorrect(contents: seq<ContentItem>, target: string)
    ensures IsSubseq(Filter(contents, HomeworkOnPred(target)), contents)
    ensures forall c :: c in Filter(contents, HomeworkOnPred(target)) <==>
      c in contents && IsHomework(c) && c.date_uploaded == target
  {
    FilterIsSubseq(contents, HomeworkOnPred(target));
  }

  /** `get_todays_homework`. */
  method GetTodaysHomework(contents: seq<ContentItem>, today: Date) returns (homework: seq<ContentItem>)
    requires Valid(today)
    ensures homework == Filter(contents, HomeworkOnPred(Iso(today)))
  {
    homework := GetHomeworkByDate(contents, Iso(today));
  }

  /** `get_homework_by_natural_date`: the date error escapes. */
  method GetHomeworkByNaturalDate(contents: seq<ContentItem>, input: string, today: Date)
    returns (r: Result<seq<ContentItem>, ToolError>)
    requires Valid(today)
    ensures ParseNaturalDate(input, today).Failure? <==> r.Failure?
    ensures r.Ok? ==> r.value == Filter(contents, HomeworkOnPred(ParseNaturalDate(input, today).value))
  {
    match ParseNaturalDate(input, today)
    case Failure(_) =>
      r := Failure(DateValueError);
    case Ok(d) =>
      var homework := GetHomeworkByDate(contents, d);
      r := Ok(homework);
  }

  // ----- get_announcements_by_week -----

  /** An announcement with a date that `date.fromisoformat` rejects. */
  predicate BadDate(c: ContentItem) {
    IsAnnouncement(c) && c.date_uploaded != "" && ParseIso(c.date_uploaded).None?
  }

  /** An announcement dated on or after the Monday of `today`'s week (future dates
      included); undated ones are skipped. */
  predicate InWeekOf(c: ContentItem, today: Date)
    requires Valid(today)
  {
    IsAnnouncement(c) && c.date_uploaded != ""
    && match ParseIso(c.date_uploaded)
       case None => false
       case Some(d) => Ordinal(d) >= WeekStartOrdinal(today)
  }

  function InWeekPred(today: Date): ContentItem -> bool
    requires Valid(today)
  {
    c => InWeekOf(c, today)
  }

  /** `get_announcements_by_week`: the loop stops with the parser's error at the first
      announcement with a malformed date. */
  method GetAnnouncementsByWeek(contents: seq<ContentItem>, today: Date)
    returns (r: Result<seq<ContentItem>, ToolError>)
    requires Valid(today)
    ensures r.Failure? <==> !NoBadDate(contents)
    ensures r.Ok? ==> r.value == Filter(contents, InWeekPred(today))
  {
    var announcements := [];
    var i := 0;
    while i < |contents|
      invariant 0 <= i <= |contents|
      invariant NoBadDate(contents[..i])
      invariant announcements == Filter(contents[..i], InWeekPred(today))
    {
      var decision := WeekDecision(contents[i], today);
      if decision.Failure? {
        NoBadDateAll(contents);
        return Failure(decision.error);
      }
      WeekStep(contents, i, today);
      if decision.value {
        announcements := announcements + [contents[i]];
      }
      i := i + 1;
    }
    WeekDone(contents, today);
    r := Ok(announcements);
  }

  /** After the last item the prefix is the whole list. */
  lemma WeekDone(contents: seq<ContentItem>, today: Date)
    requires Valid(today) && NoBadDate(contents[..|contents|])
    ensures NoBadDate(contents)
    ensures Filter(contents[..|contents|], InWeekPred(today)) == Filter(contents, InWeekPred(today))
  {
    assert contents[..|contents|] == contents;
  }

  /** One pass of the week loop over an item with a well-formed date (or none). */
  lemma WeekStep(contents: seq<ContentItem>, i: nat, today: Date)
    requires Valid(today) && i < |contents| && NoBadDate(contents[..i]) && !BadDate(contents[i])
    ensures NoBadDate(contents[..i + 1])
    ensures Filter(contents[..i + 1], InWeekPred(today)) ==
      Filter(contents[..i], InWeekPred(today)) + (if InWeekOf(contents[i], today) then [contents[i]] else [])
  {
    NoBadDateStep(contents, i);
    FilterPrefixStep(contents, i, InWeekPred(today));
  }

  /** No announcement in `s` has a malformed date, checked item by item from the end. */
  predicate NoBadDate(s: seq<ContentItem>)
    decreases |s|
  {
    s == [] || (NoBadDate(s[..|s| - 1]) && !BadDate(s[|s| - 1]))
  }

  /** The item-by-item check holds exactly when no item has a malformed date. */
  lemma {:induction false} NoBadDateAll(s: seq<ContentItem>)
    ensures NoBadDate(s) <==> forall j :: 0 <= j < |s| ==> !BadDate(s[j])
    decreases |s|
  {
    if s != [] {
      var init := s[..|s| - 1];
      NoBadDateAll(init);
      assert forall j :: 0 <= j < |init| ==> init[j] == s[j];
    }
  }

  lemma NoBadDateStep(s: seq<ContentItem>, i: nat)
    requires i < |s| && NoBadDate(s[..i]) && !BadDate(s[i])
    ensures NoBadDate(s[..i + 1])
  {
    assert s[..i + 1][..i] == s[..i];
  }

  /** The loop body's decision for one item: skip or keep it, or the parser's error. */
  function WeekDecision(c: ContentItem, today: Date): (r: Result<bool, ToolError>)
    requires Valid(today)
    ensures r.Failure? <==> BadDate(c)
    ensures r.Ok? ==> r.value == InWeekPred(today)(c)
  {
    if IsAnnouncement(c) && c.date_uploaded != "" then
      match ParseIso(c.date_uploaded)
      case None => Failure(DateValueError)
      case Some(d) => Ok(Ordinal(d) >= WeekStartOrdinal(today))
    else Ok(false)
  }

  /** Dates written by the store are ISO dates, so the week query never fails on them. */
  lemma StoredDatesNeverFail(c: ContentItem, d: Date)
    requires Valid(d) && c.date_uploaded == Iso(d)
    ensures !BadDate(c)
  {
    ParseIsoRoundTrip(d);
  }

  /** Every announcement kept is dated no earlier than this week's Monday, and an
      announcement made today is always kept. */
  lemma WeekBounds(c: ContentItem, today: Date)
    requires Valid(today)
    ensures InWeekOf(c, today) ==>
      (exists d :: ParseIso(c.date_uploaded) == Some(d) && Ordinal(d) >= Ordinal(today) - Weekday(today))
    ensures IsAnnouncement(c) && c.date_uploaded == Iso(today) ==> InWeekOf(c, today)
  {
    if IsAnnouncement(c) && c.date_uploaded == Iso(today) {
      ParseIsoRoundTrip(today);
    }
  }

  // ----- search_content_by_type -----

  predicate TypeIs(c: ContentItem, contentType: string) {
    Lower(c.content_type) == Lower(contentType)
  }

  function TypeIsPred(contentType: string): ContentItem -> bool {
    c => TypeIs(c, contentType)
  }

  /** `search_content_by_type`. */
  method SearchContentByType(contents: seq<ContentItem>, contentType: string) returns (found: seq<ContentItem>)
    ensures found == Filter(contents, TypeIsPred(contentType))
  {
    var p := TypeIsPred(contentType);
    found := [];
    var i := 0;
    while i < |contents|
      invariant 0 <= i <= |contents|
      invariant found == Filter(contents[..i], p)
    {
      var c := contents[i];
      FilterPrefixStep(contents, i, p);
      if p(c) {
        found := found + [c];
      }
      i := i + 1;
    }
    assert contents[..|contents|] == contents;
  }

  /** The letter case of the requested type does not matter. */
  lemma TypeSearchIgnoresCase(contents: seq<ContentItem>, t1: string, t2: string)
    requires Lower(t1) == Lower(t2)
    ensures Filter(contents, TypeIsPred(t1)) == Filter(contents, TypeIsPred(t2))
  {
    FilterSame(contents, TypeIsPred(t1), TypeIsPred(t2));
  }

  /** `find_announcement_by_keyword`. */
  method FindAnnouncementByKeyword(contents: seq<ContentItem>, keyword: string) returns (found: seq<ContentItem>)
    ensures found == Filter(contents, KeywordPred(keyword, Some("announcement")))
  {
    found := FindContentByKeyword(contents, keyword, Some("announcement"));
  }

  // ----- get_content_summary -----

  datatype Summary = Summary(total_content: nat, homework_count: nat, announcement_count: nat, notes_count: nat)

  function TypeExactlyPred(t: string): ContentItem -> bool {
    (c: ContentItem) => c.content_type == t
  }

  /** `get_content_summary`: the kinds are counted by exact, case-sensitive type. */
  function GetContentSummary(contents: seq<ContentItem>): (s: Summary)
    ensures s.total_content == |contents|
    ensures s.homework_count == |Filter(contents, TypeExactlyPred("homework"))|
    ensures s.announcement_count == |Filter(contents, TypeExactlyPred("announcement"))|
    ensures s.notes_count == |Filter(contents, TypeExactlyPred("notes"))|
  {
    Summary(|contents|, Count(contents, TypeExactlyPred("homework")),
      Count(contents, TypeExactlyPred("announcement")), Count(contents, TypeExactlyPred("notes")))
  }

  /** The three counts together never exceed the total. */
  lemma SummaryBounded(contents: seq<ContentItem>)
    ensures var s := GetContentSummary(contents);
      s.homework_count + s.announcement_count + s.notes_count <= s.total_content
  {
    CountDisjoint3(contents, TypeExactlyPred("homework"), TypeExactlyPred("announcement"), TypeExactlyPred("notes"));
  }

  /** An item typed "Homework" is found by the type search for "homework" but not
      counted as homework by the summary. */
  lemma SummaryIsCaseSensitive(c: ContentItem)
    requires c.content_type == "Homework"
    ensures GetContentSummary([c]).homework_count == 0
    ensures Filter([c], TypeIsPred("homework")) == [c]
  {
    assert Lower("Homework") == "homework";
    FilterSnoc([], c, TypeExactlyPred("homework"));
    FilterSnoc([], c, TypeIsPred("homework"));
    assert [] + [c] == [c];
  }

  // ----- update_homework_title, remove_announcement, upload_notes -----

  /** Row `i` of `before` has the identifier, and `after` is `before` with that row's
      title replaced. */
  predicate TitleUpdatedAt(before: seq<ContentItem>, after: seq<ContentItem>, i: int, id: int, newTitle: string) {
    0 <= i < |before| && HasId(before[i], id) && after == before[i := before[i].(title := newTitle)]
  }

  /** `update_homework_title`: success exactly when the store found the identifier;
      the identifier is not checked to belong to homework. */
  method UpdateHomeworkTitle(store: ContentStore, id: int, newTitle: string) returns (result: ToolResult)
    requires store.Valid()
    modifies store
    ensures store.Valid() && store.nextId == old(store.nextId)
    ensures result.success <==> exists i :: 0 <= i < |old(store.rows)| && HasId(old(store.rows)[i], id)
    ensures !result.success ==>
      store.rows == old(store.rows) && result == ToolResult(false, "Homework not found or update failed", None)
    ensures result.success ==> result.message == "Homework title updated to: " + newTitle
    ensures result.success ==>
      (exists i :: TitleUpdatedAt(old(store.rows), store.rows, i, id, newTitle)
        && result.content == Some(old(store.rows)[i].(title := newTitle)))
  {
    var updated := store.UpdateTitle(id, newTitle);
    if updated.Some? {
      result := ToolResult(true, "Homework title updated to: " + newTitle, updated);
    } else {
      result := ToolResult(false, "Homework not found or update failed", None);
    }
  }

  /** `remove_announcement`: success exactly when a row had the identifier, and that
      row goes whatever its type. */
  method RemoveAnnouncement(store: ContentStore, id: int) returns (result: ToolResult)
    requires store.Valid()
    modifies store
    ensures store.Valid() && store.nextId == old(store.nextId)
    ensures result.success <==> exists i :: 0 <= i < |old(store.rows)| && HasId(old(store.rows)[i], id)
    ensures store.rows == Filter(old(store.rows), NotIdPred(id))
    ensures result.message == if result.success then "Announcement removed successfully"
      else "Announcement not found or deletion failed"
  {
    var deleted := store.Delete(id);
    if deleted {
      result := ToolResult(true, "Announcement removed successfully", None);
    } else {
      result := ToolResult(false, "Announcement not found or deletion failed", None);
    }
  }

  /** `attachment_urls or []`. */
  function AttachmentsOrEmpty(urls: Option<seq<string>>): seq<string> {
    match urls
    case None => []
    case Some(u) => u
  }

  /** `upload_notes`: the new row is always of type "notes", dated today, and the
      upload always reports success. */
  method UploadNotes(store: ContentStore, teacher_id: string, class_name: string, subject: string,
                     title: string, description: Option<string>, attachment_urls: Option<seq<string>>, today: Date)
    returns (result: ToolResult)
    requires store.Valid() && Valid(today)
    modifies store
    ensures store.Valid() && store.nextId == old(store.nextId) + 1
    ensures result.success && result.content.Some?
    ensures result.message == "Notes uploaded successfully for " + class_name + " " + subject
    ensures store.rows == old(store.rows) + [result.content.value]
    ensures var c := result.content.value;
      c.content_type == "notes" && c.teacher_id == teacher_id && c.class_name == class_name
      && c.subject == Some(subject) && c.title == title && c.description == description
      && c.attachment_urls == AttachmentsOrEmpty(attachment_urls)
      && c.content_id == Some(old(store.nextId)) && ParseIso(c.date_uploaded) == Some(today)
  {
    var content := NewSchoolContent(teacher_id, class_name, "notes", title, today,
      subject := Some(subject), description := description, attachment_urls := AttachmentsOrEmpty(attachment_urls));
    var created := store.Create(content);
    result := ToolResult(true, "Notes uploaded successfully for " + class_name + " " + subject, Some(created));
  }

  // ----- update_todays_homework_by_subject -----

  /** The scan over today's homework: the first whose subject matches ignoring case;
      an absent subject met before a match raises (`None.lower()`). */
  function SubjectScan(homework: seq<ContentItem>, subject: string): (r: Result<Option<ContentItem>, ToolError>)
    ensures r.Ok? && r.value.Some? ==>
      r.value.value in homework && r.value.value.subject.Some? && Lower(r.value.value.subject.value) == Lower(subject)
    decreases |homework|
  {
    if homework == [] then Ok(None)
    else
      match homework[0].subject
      case None => Failure(SubjectIsNone)
      case Some(s) =>
        if Lower(s) == Lower(subject) then Ok(Some(homework[0]))
        else SubjectScan(homework[1..], subject)
  }

  /** Every item before `i` has a subject, and it does not match. */
  predicate NoMatchBefore(homework: seq<ContentItem>, i: nat, subject: string)
    requires i <= |homework|
  {
    forall j :: 0 <= j < i ==> homework[j].subject.Some? && Lower(homework[j].subject.value) != Lower(subject)
  }

  /** The scan picks the first matching item; it fails exactly at the first item
      without a subject met before any match; no pick means no item matches. */
  lemma {:induction false} SubjectScanFirst(homework: seq<ContentItem>, subject: string)
    ensures var r := SubjectScan(homework, subject);
      r.Ok? && r.value.Some? ==>
        (exists i :: 0 <= i < |homework| && homework[i] == r.value.value && NoMatchBefore(homework, i, subject))
    ensures var r := SubjectScan(homework, subject);
      r.Ok? && r.value.None? ==> NoMatchBefore(homework, |homework|, subject)
    ensures var r := SubjectScan(homework, subject);
      r.Failure? ==>
        (exists i :: 0 <= i < |homework| && homework[i].subject.None? && NoMatchBefore(homework, i, subject))
    decreases |homework|
  {
    if homework != [] && homework[0].subject.Some? && Lower(homework[0].subject.value) != Lower(subject) {
      var t := homework[1..];
      SubjectScanFirst(t, subject);
      var r := SubjectScan(t, subject);
      assert SubjectScan(homework, subject) == r;
      if r.Ok? && r.value.Some? {
        var i :| 0 <= i < |t| && t[i] == r.value.value && NoMatchBefore(t, i, subject);
        NoMatchBeforeShift(homework, i, subject);
      } else if r.Failure? {
        var i :| 0 <= i < |t| && t[i].subject.None? && NoMatchBefore(t, i, subject);
        NoMatchBeforeShift(homework, i, subject);
      } else {
        NoMatchBeforeShift(homework, |t|, subject);
      }
    } else if homework != [] {
      assert NoMatchBefore(homework, 0, subject);
    }
  }

  /** A first item with a different subject extends a match-free prefix of the rest
      by one. */
  lemma NoMatchBeforeShift(homework: seq<ContentItem>, i: nat, subject: string)
    requires i < |homework| && homework[0].subject.Some?
    requires Lower(homework[0].subject.value) != Lower(subject)
    requires NoMatchBefore(homework[1..], i, subject)
    ensures NoMatchBefore(homework, i + 1, subject)
    ensures i < |homework| - 1 ==> homework[i + 1] == homework[1..][i]
  {
    forall j | 0 <= j < i + 1
      ensures homework[j].subject.Some? && Lower(homework[j].subject.value) != Lower(subject)
    {
      if j > 0 {
        assert homework[j] == homework[1..][j - 1];
      }
    }
  }

  /** The loop of `update_todays_homework_by_subject`, up to the update it hands over to. */
  method ScanTodaysHomework(homework: seq<ContentItem>, subject: string) returns (r: Result<Option<ContentItem>, ToolError>)
    ensures r == SubjectScan(homework, subject)
  {
    var i := 0;
    while i < |homework|
      invariant 0 <= i <= |homework|
      invariant SubjectScan(homework[i..], subject) == SubjectScan(homework, subject)
    {
      assert homework[i..][1..] == homework[i + 1..];
      match homework[i].subject
      case None =>
        return Failure(SubjectIsNone);
      case Some(s) =>
        if Lower(s) == Lower(subject) {
          return Ok(Some(homework[i]));
        }
      i := i + 1;
    }
    r := Ok(None);
  }

  /** `update_todays_homework_by_subject`: the title of the first of today's homework
      whose subject matches is updated; with no match, nothing changes and the reply
      names the subject. */
  method UpdateTodaysHomeworkBySubject(store: ContentStore, subject: string, newTitle: string, today: Date)
    returns (r: Result<ToolResult, ToolError>)
    requires store.Valid() && Valid(today)
    modifies store
    ensures store.Valid()
    ensures var scan := SubjectScan(Filter(old(store.rows), HomeworkOnPred(Iso(today))), subject);
      (scan.Failure? <==> r.Failure?)
      && (scan.Ok? && scan.value.None? ==>
            store.rows == old(store.rows)
            && r == Ok(ToolResult(false, "No homework found for " + subject + " today", None)))
      && (scan.Ok? && scan.value.Some? ==>
            r.Ok? && r.value.success && r.value.content == Some(scan.value.value.(title := newTitle))
            && (exists i :: TitleUpdatedAt(old(store.rows), store.rows, i, scan.value.value.content_id.value, newTitle)
                 && old(store.rows)[i] == scan.value.value))
    ensures r.Failure? ==> store.rows == old(store.rows)
  {
    var todays := GetTodaysHomework(store.rows, today);
    var scan := ScanTodaysHomework(todays, subject);
    match scan
    case Failure(e) =>
      r := Failure(e);
    case Ok(None) =>
      r := Ok(ToolResult(false, "No homework found for " + subject + " today", None));
    case Ok(Some(h)) =>
      assert h in store.rows;
      var k :| 0 <= k < |store.rows| && store.rows[k] == h;
      var id := h.content_id.value;
      ghost var before := store.rows;
      var result := UpdateHomeworkTitle(store, id, newTitle);
      ghost var i :| TitleUpdatedAt(before, store.rows, i, id, newTitle)
        && result.content == Some(before[i].(title := newTitle));
      assert i == k;
      r := Ok(result);
  }
}

/** The current chat assistant's message handler: a first-match chain of rules over
    the lowercased message. Each rule either answers from the content list (filters,
    counts, rankings) or describes the request it would send (an update, a delete,
    an upload). The reply is modelled as which answer was chosen plus the data it is
    built from; the wording of the answers is not modelled. */
module ChatAssistant {
  import opened Common
  import opened Text
  import opened Records
  import opened Ranking
  import opened Patterns

  /** The rules of the chain, in the order they are tried. */
  datatype Rule =
    | GreetingRule
    | UpdateRule
    | RemoveRule
    | TeacherProfileRule
    | DepartmentNotesRule
    | ScienceDepartmentRule
    | RecentTeacherRule
    | WeeklyHomeworkRule
    | ClassUploadsRule
    | AnalyticsRule
    | UploadRule
    | LateAnalyticsRule
    | ShowContentRule

  /** The position of a rule in the chain. */
  function Priority(r: Rule): nat {
    match r
    case GreetingRule => 0
    case UpdateRule => 1
    case RemoveRule => 2
    case TeacherProfileRule => 3
    case DepartmentNotesRule => 4
    case ScienceDepartmentRule => 5
    case RecentTeacherRule => 6
    case WeeklyHomeworkRule => 7
    case ClassUploadsRule => 8
    case AnalyticsRule => 9
    case UploadRule => 10
    case LateAnalyticsRule => 11
    case ShowContentRule => 12
  }

  predicate AnalyticsWords(q: string) {
    Contains(q, "how many") || Contains(q, "total") || Contains(q, "count")
    || Contains(q, "which subject") || Contains(q, "most uploaded")
  }

  /** The condition under which each rule fires, on the lowercased message. */
  predicate Guard(r: Rule, q: string) {
    match r
    case GreetingRule => IsShortGreeting(q)
    case UpdateRule => Contains(q, "update") && (Contains(q, "title") || Contains(q, "change"))
    case RemoveRule => Contains(q, "remove") || Contains(q, "delete")
    case TeacherProfileRule => Contains(q, "implement") && Contains(q, "teacherprofile")
    case DepartmentNotesRule =>
      Contains(q, "department") && (Contains(q, "most notes") || Contains(q, "uploaded the most notes"))
    case ScienceDepartmentRule => Contains(q, "science department") && Contains(q, "uploads")
    case RecentTeacherRule =>
      Contains(q, "teacher") && (Contains(q, "recent") || Contains(q, "most recent") || Contains(q, "latest"))
    case WeeklyHomeworkRule => Contains(q, "teacher") && Contains(q, "homework") && Contains(q, "week")
    case ClassUploadsRule => Contains(q, "class") && (Contains(q, "most upload") || Contains(q, "received most"))
    case AnalyticsRule => AnalyticsWords(q)
    case UploadRule =>
      (Contains(q, "upload") || Contains(q, "add")) && !Contains(q, "how many") && !Contains(q, "total")
      && !Contains(q, "which subject") && !Contains(q, "recent") && !Contains(q, "most recent")
      && !Contains(q, "week") && !Contains(q, "received most") && !Contains(q, "department")
    case LateAnalyticsRule => AnalyticsWords(q)
    case ShowContentRule => true
  }

  /** The rule the `if / else if` chain selects for the lowercased message `q`. */
  function Route(q: string): Rule {
    if Guard(GreetingRule, q) then GreetingRule
    else if Guard(UpdateRule, q) then UpdateRule
    else if Guard(RemoveRule, q) then RemoveRule
    else if Guard(TeacherProfileRule, q) then TeacherProfileRule
    else if Guard(DepartmentNotesRule, q) then DepartmentNotesRule
    else if Guard(ScienceDepartmentRule, q) then ScienceDepartmentRule
    else if Guard(RecentTeacherRule, q) then RecentTeacherRule
    else if Guard(WeeklyHomeworkRule, q) then WeeklyHomeworkRule
    else if Guard(ClassUploadsRule, q) then ClassUploadsRule
    else if Guard(AnalyticsRule, q) then AnalyticsRule
    else if Guard(UploadRule, q) then UploadRule
    else if Guard(LateAnalyticsRule, q) then LateAnalyticsRule
    else ShowContentRule
  }

  /** First match wins: the selected rule's condition holds and no earlier rule's does. */
  lemma RouteIsFirstMatch(q: string)
    ensures Guard(Route(q), q)
    ensures forall r: Rule :: Priority(r) < Priority(Route(q)) ==> !Guard(r, q)
  {
    forall r: Rule | Priority(r) < Priority(Route(q))
      ensures !Guard(r, q)
    {
      match r
      case GreetingRule =>
      case UpdateRule =>
      case RemoveRule =>
      case TeacherProfileRule =>
      case DepartmentNotesRule =>
      case ScienceDepartmentRule =>
      case RecentTeacherRule =>
      case WeeklyHomeworkRule =>
      case ClassUploadsRule =>
      case AnalyticsRule =>
      case UploadRule =>
      case LateAnalyticsRule =>
      case ShowContentRule =>
    }
  }

  /** The second analytics rule repeats the condition of the first one, which is
      tried earlier, so it is never selected. */
  lemma LateAnalyticsUnreachable(q: string)
    ensures Route(q) != LateAnalyticsRule
  {
    RouteIsFirstMatch(q);
  }

  /** What the assistant does with a message. */
  datatype Reply =
    | Ignored                                             // empty message: nothing is shown or sent
    | Greeting
    | UpdateRequest(target: ContentItem, newTitle: string) // PUT of the new title for the target
    | UpdateHelp
    | DeleteRequest(target: ContentItem)                  // DELETE of the target
    | RemoveHelp
    | TeacherProfileSummary
    | DepartmentNotesReport                               // built from another endpoint
    | ScienceDepartmentReport                             // built from another endpoint
    | RecentUploadAudit(latest: ContentItem)
    | NoUploadRecords
    | WeeklyHomeworkAudit(teachers: seq<string>, homework: seq<ContentItem>)
    | NoWeeklyHomework
    | ClassUploadRanking(classes: seq<(string, nat)>)
    | NoClassData
    | ContentTotals(total: nat, homeworkCount: nat, notesCount: nat, announcementCount: nat, assignmentCount: nat)
    | ClassHomework(className: string, homework: seq<ContentItem>)
    | ClassHomeworkHelp
    | SubjectRanking(subjects: seq<(string, nat)>)
    | NoSubjectData
    | HomeworkByClass(count: nat, byClass: seq<(string, nat)>)
    | NotesBySubject(count: nat, bySubject: seq<(Option<string>, nat)>)
    | GeneralTotal(total: nat)
    | DefaultAnswer
    | UploadHelp
    | UploadRequest(content: NewContentRequest)          // POST of the new content
    | ShowContent(items: seq<ContentItem>, heading: string)
    | NothingFound(requested: string)

  // ----- update and remove -----

  /** The item's lowercased title occurs in the message. */
  predicate TitleMentioned(q: string, c: ContentItem) {
    Contains(q, Lower(c.title))
  }

  function TitleMentionedPred(q: string): ContentItem -> bool {
    c => TitleMentioned(q, c)
  }

  /** `sep` occurs at `i` and nowhere before. */
  predicate FirstAt(s: string, sep: string, i: nat) {
    OccursAt(s, sep, i) && forall k: nat :: k < i ==> !OccursAt(s, sep, k)
  }

  /** `p` is what `t` holds before the first occurrence of `sep`: all of `t` when
      `sep` does not occur in it. */
  predicate PieceBefore(t: string, sep: string, p: string) {
    |p| <= |t| && t[..|p|] == p
    && (forall k: nat :: k < |p| ==> !OccursAt(t, sep, k))
    && (|p| == |t| || OccursAt(t, sep, |p|))
  }

  /** `s.split(sep)[1]`: the text between the first and the second occurrence of `sep`
      (or the end); None when `sep` does not occur. */
  function SecondPiece(s: string, sep: string): (r: Option<string>)
    requires |sep| > 0
    ensures r.Some? <==> Contains(s, sep)
    ensures r.Some? ==> !Contains(r.value, sep)
    ensures r.Some? ==> exists i: nat :: FirstAt(s, sep, i) && i + |sep| <= |s| && PieceBefore(s[i + |sep|..], sep, r.value)
  {
    IndexFromContains(s, sep);
    match IndexFrom(s, sep, 0)
    case None => None
    case Some(i) =>
      assert FirstAt(s, sep, i);
      Some(PieceOf(s[i + |sep|..], sep))
  }

  /** What `t` holds before the first occurrence of `sep`. */
  function PieceOf(t: string, sep: string): (p: string)
    requires |sep| > 0
    ensures PieceBefore(t, sep, p) && !Contains(p, sep)
  {
    IndexFromContains(t, sep);
    match IndexFrom(t, sep, 0)
    case None =>
      assert t[..|t|] == t;
      t
    case Some(j) =>
      FirstOccurrenceAbsentBefore(t, sep, j);
      t[..j]
  }

  /** A prefix that ends before the first occurrence does not contain the pattern. */
  lemma FirstOccurrenceAbsentBefore(s: string, t: string, j: nat)
    requires |t| > 0 && j <= |s| && forall k: nat :: k < j ==> !OccursAt(s, t, k)
    ensures !Contains(s[..j], t)
  {
    if Contains(s[..j], t) {
      var k: nat :| k <= j && OccursAt(s[..j], t, k);
      assert s[..j][k..k + |t|] == s[k..k + |t|];
      assert OccursAt(s, t, k);
      assert false;
    }
  }

  /** The new title: the trimmed piece after the first " to ", or empty. */
  function NewTitle(q: string): string {
    match SecondPiece(q, " to ")
    case None => ""
    case Some(piece) => Trim(piece)
  }

  /** In "<a> to <b>" where " to " first occurs at the join and not again in `b`, the
      new title is `b` trimmed. */
  lemma NewTitleOfPhrase(a: string, b: string)
    requires !Contains(a + " to", " to ") && !Contains(b, " to ")
    ensures NewTitle(a + " to " + b) == Trim(b)
  {
    var q := a + " to " + b;
    var sep := " to ";
    assert q[|a|..|a| + 4] == sep;
    forall k: nat | k < |a|
      ensures !OccursAt(q, sep, k)
    {
      assert q[k..k + 4] == (a + " to")[k..k + 4];
      assert OccursAt(q, sep, k) == OccursAt(a + " to", sep, k);
    }
    assert IndexFrom(q, sep, 0) == Some(|a|) by {
      IndexFromFirst(q, sep, |a|);
    }
    assert q[|a| + 4..] == b;
    IndexFromContains(b, sep);
  }

  /** `indexOf` finds an occurrence with no earlier one. */
  lemma IndexFromFirst(s: string, t: string, i: nat)
    requires OccursAt(s, t, i) && forall k: nat :: k < i ==> !OccursAt(s, t, k)
    ensures IndexFrom(s, t, 0) == Some(i)
  {
    match IndexFrom(s, t, 0)
    case None =>
    case Some(j) =>
  }

  /** A non-empty new title has no surrounding white space and needs " to " in the message. */
  lemma NewTitleShape(q: string)
    ensures NewTitle(q) != "" ==>
      !IsJsSpace(NewTitle(q)[0]) && !IsJsSpace(NewTitle(q)[|NewTitle(q)| - 1]) && Contains(q, " to ")
  {
  }

  /** A non-empty new title is the trimmed second piece of the message. */
  lemma NewTitlePiece(q: string)
    ensures NewTitle(q) != "" ==> Contains(q, " to ") && NewTitle(q) == Trim(SecondPiece(q, " to ").value)
  {
  }

  function UpdateReply(q: string, items: seq<ContentItem>): Reply {
    var target := FindFirst(items, TitleMentionedPred(q));
    var newTitle := NewTitle(q);
    if target.Some? && newTitle != "" then UpdateRequest(target.value, newTitle) else UpdateHelp
  }

  function RemoveReply(q: string, items: seq<ContentItem>): Reply {
    match FindFirst(items, TitleMentionedPred(q))
    case Some(target) => DeleteRequest(target)
    case None => RemoveHelp
  }

  /** An update request names the first item whose title the message mentions and a
      non-empty new title with no surrounding white space; without both, the
      assistant only explains the syntax. */
  lemma UpdateReplyCorrect(q: string, items: seq<ContentItem>)
    ensures UpdateReply(q, items).UpdateRequest? <==>
      (exists i :: 0 <= i < |items| && TitleMentioned(q, items[i])) && NewTitle(q) != ""
    ensures UpdateReply(q, items).UpdateRequest? ==>
      var r := UpdateReply(q, items);
      (exists i :: 0 <= i < |items| && items[i] == r.target && TitleMentioned(q, r.target)
        && forall j :: 0 <= j < i ==> !TitleMentioned(q, items[j]))
      && r.newTitle != "" && !IsJsSpace(r.newTitle[0]) && !IsJsSpace(r.newTitle[|r.newTitle| - 1])
      && Contains(q, " to ") && r.newTitle == Trim(SecondPiece(q, " to ").value)
    ensures !UpdateReply(q, items).UpdateRequest? ==> UpdateReply(q, items) == UpdateHelp
  {
    var p := TitleMentionedPred(q);
    NewTitleShape(q);
    NewTitlePiece(q);
    if UpdateReply(q, items).UpdateRequest? {
      var i := FirstIndex(items, p).value;
      assert p(items[i]);
    }
  }

  /** A delete request names the first item whose title the message mentions. */
  lemma RemoveReplyCorrect(q: string, items: seq<ContentItem>)
    ensures RemoveReply(q, items).DeleteRequest? <==> exists i :: 0 <= i < |items| && TitleMentioned(q, items[i])
    ensures RemoveReply(q, items).DeleteRequest? ==>
      exists i :: 0 <= i < |items| && items[i] == RemoveReply(q, items).target
        && TitleMentioned(q, items[i]) && forall j :: 0 <= j < i ==> !TitleMentioned(q, items[j])
    ensures !RemoveReply(q, items).DeleteRequest? ==> RemoveReply(q, items) == RemoveHelp
  {
    var p := TitleMentionedPred(q);
    if RemoveReply(q, items).DeleteRequest? {
      var i := FirstIndex(items, p).value;
      assert p(items[i]);
    }
  }

  // ----- auditing -----

  /** The first item with the greatest upload date, as the first element of a stable
      sort by decreasing date. Dates are compared as ISO text, which for valid dates
      is date order (`Dates.IsoOrder`). */
  function Latest(items: seq<ContentItem>): (r: ContentItem)
    requires items != []
    decreases |items|
  {
    if |items| == 1 then items[0]
    else
      var best := Latest(items[..|items| - 1]);
      var last := items[|items| - 1];
      if LexLess(best.date_uploaded, last.date_uploaded) then last else best
  }

  /** Every item before position `i` is dated strictly earlier than the item at `i`. */
  predicate AllEarlierBefore(items: seq<ContentItem>, i: nat)
    requires i < |items|
  {
    forall j :: 0 <= j < i ==> LexLess(items[j].date_uploaded, items[i].date_uploaded)
  }

  /** `r` is an item of `items` that no item is dated after, and every item before
      some occurrence of it is dated strictly earlier. */
  predicate LatestOf(items: seq<ContentItem>, r: ContentItem) {
    r in items
    && (forall c :: c in items ==> !LexLess(r.date_uploaded, c.date_uploaded))
    && exists i :: 0 <= i < |items| && items[i] == r && AllEarlierBefore(items, i)
  }

  /** A last item dated after the latest of the others becomes the latest. */
  lemma LatestAppendLater(items: seq<ContentItem>, best: ContentItem)
    requires |items| > 1 && LatestOf(items[..|items| - 1], best)
    requires LexLess(best.date_uploaded, items[|items| - 1].date_uploaded)
    ensures LatestOf(items, items[|items| - 1])
  {
    var init, last := items[..|items| - 1], items[|items| - 1];
    forall c | c in items
      ensures !LexLess(last.date_uploaded, c.date_uploaded)
    {
      var k :| 0 <= k < |items| && items[k] == c;
      if k < |init| {
        assert init[k] == c && init[k] in init;
        if LexLess(last.date_uploaded, c.date_uploaded) {
          LexLessTrans(best.date_uploaded, last.date_uploaded, c.date_uploaded);
        }
      } else {
        LexLessIrreflexive(last.date_uploaded);
      }
    }
    forall j | 0 <= j < |items| - 1
      ensures LexLess(items[j].date_uploaded, last.date_uploaded)
    {
      assert items[j] == init[j] && init[j] in init;
      LexLessTotal(items[j].date_uploaded, best.date_uploaded);
      if items[j].date_uploaded != best.date_uploaded {
        LexLessTrans(items[j].date_uploaded, best.date_uploaded, last.date_uploaded);
      }
    }
    assert AllEarlierBefore(items, |items| - 1);
  }

  /** A last item not dated after the latest of the others leaves that one the latest. */
  lemma LatestAppendEarlier(items: seq<ContentItem>, best: ContentItem)
    requires |items| > 1 && LatestOf(items[..|items| - 1], best)
    requires !LexLess(best.date_uploaded, items[|items| - 1].date_uploaded)
    ensures LatestOf(items, best)
  {
    var init, last := items[..|items| - 1], items[|items| - 1];
    forall c | c in items
      ensures !LexLess(best.date_uploaded, c.date_uploaded)
    {
      var k :| 0 <= k < |items| && items[k] == c;
      if k < |init| {
        assert init[k] == c && init[k] in init;
      }
    }
    var i :| 0 <= i < |init| && init[i] == best && AllEarlierBefore(init, i);
    assert items[i] == best;
    assert AllEarlierBefore(items, i);
  }

  /** One step of `Latest`: the latest of the first items, compared with the last. */
  lemma LatestStep(items: seq<ContentItem>)
    requires |items| > 1
    requires LatestOf(items[..|items| - 1], Latest(items[..|items| - 1]))
    ensures LatestOf(items, Latest(items))
  {
    var best := Latest(items[..|items| - 1]);
    if LexLess(best.date_uploaded, items[|items| - 1].date_uploaded) {
      LatestAppendLater(items, best);
    } else {
      LatestAppendEarlier(items, best);
    }
  }

  /** No item is dated later than the latest one, and every item before it is dated
      strictly earlier. */
  lemma {:induction false} LatestCorrect(items: seq<ContentItem>)
    requires items != []
    ensures LatestOf(items, Latest(items))
    decreases |items|
  {
    if |items| == 1 {
      LexLessIrreflexive(items[0].date_uploaded);
      assert AllEarlierBefore(items, 0);
    } else {
      LatestCorrect(items[..|items| - 1]);
      LatestStep(items);
    }
  }

  function RecentReply(items: seq<ContentItem>): Reply {
    if items == [] then NoUploadRecords else RecentUploadAudit(Latest(items))
  }

  /** Homework uploaded within the last week; whether a date falls in that window is
      decided by the caller, who knows the current time. */
  predicate RecentHomework(inLastWeek: string -> bool, c: ContentItem) {
    IsHomework(c) && inLastWeek(c.date_uploaded)
  }

  function RecentHomeworkPred(inLastWeek: string -> bool): ContentItem -> bool {
    c => RecentHomework(inLastWeek, c)
  }

  function TeacherOf(c: ContentItem): string { c.teacher_id }

  function WeeklyReply(items: seq<ContentItem>, inLastWeek: string -> bool): Reply {
    var homework := Filter(items, RecentHomeworkPred(inLastWeek));
    var teachers := Dedup(Map(homework, TeacherOf));
    if |teachers| > 0 then WeeklyHomeworkAudit(teachers, homework) else NoWeeklyHomework
  }

  /** The teachers of the recent homework: each once, exactly those with a recent
      homework item, and none at all exactly when there is no recent homework. */
  lemma RecentTeachers(items: seq<ContentItem>, inLastWeek: string -> bool)
    ensures var teachers := Dedup(Map(Filter(items, RecentHomeworkPred(inLastWeek)), TeacherOf));
      (forall t :: t in teachers <==> exists c :: c in items && RecentHomework(inLastWeek, c) && c.teacher_id == t)
      && (forall i, j :: 0 <= i < j < |teachers| ==> teachers[i] != teachers[j])
      && (|teachers| > 0 <==> exists c :: c in items && RecentHomework(inLastWeek, c))
  {
    var teachers := Dedup(Map(Filter(items, RecentHomeworkPred(inLastWeek)), TeacherOf));
    RecentTeacherIds(items, inLastWeek);
    if exists c :: c in items && RecentHomework(inLastWeek, c) {
      var c :| c in items && RecentHomework(inLastWeek, c);
      assert c.teacher_id in teachers;
    }
    if |teachers| > 0 {
      assert teachers[0] in teachers;
    }
  }

  /** The weekly audit lists each teacher with recent homework exactly once. */
  lemma WeeklyReplyCorrect(items: seq<ContentItem>, inLastWeek: string -> bool)
    ensures WeeklyReply(items, inLastWeek).WeeklyHomeworkAudit? <==>
      exists c :: c in items && RecentHomework(inLastWeek, c)
    ensures WeeklyReply(items, inLastWeek).WeeklyHomeworkAudit? ==>
      var r := WeeklyReply(items, inLastWeek);
      (forall t :: t in r.teachers <==> exists c :: c in items && RecentHomework(inLastWeek, c) && c.teacher_id == t)
      && (forall i, j :: 0 <= i < j < |r.teachers| ==> r.teachers[i] != r.teachers[j])
      && IsSubseq(r.homework, items)
  {
    FilterIsSubseq(items, RecentHomeworkPred(inLastWeek));
    RecentTeachers(items, inLastWeek);
  }

  /** A teacher id occurs among the recent homework exactly when some recent homework
      item was uploaded by that teacher. */
  lemma RecentTeacherIds(items: seq<ContentItem>, inLastWeek: string -> bool)
    ensures forall t :: t in Map(Filter(items, RecentHomeworkPred(inLastWeek)), TeacherOf) <==>
      exists c :: c in items && RecentHomework(inLastWeek, c) && c.teacher_id == t
  {
    var homework := Filter(items, RecentHomeworkPred(inLastWeek));
    var ids := Map(homework, TeacherOf);
    forall t | t in ids
      ensures exists c :: c in items && RecentHomework(inLastWeek, c) && c.teacher_id == t
    {
      var k :| 0 <= k < |ids| && ids[k] == t;
      assert homework[k] in homework;
    }
    forall c | c in items && RecentHomework(inLastWeek, c)
      ensures c.teacher_id in ids
    {
      assert c in homework;
      var k :| 0 <= k < |homework| && homework[k] == c;
      assert ids[k] == c.teacher_id;
    }
  }

  /** `c.class_name || 'Unknown'` */
  function ClassKey(c: ContentItem): string {
    if c.class_name == "" then "Unknown" else c.class_name
  }

  /** `c.subject || 'Unknown'` */
  function SubjectKey(c: ContentItem): (k: string)
    ensures k != ""
    ensures c.subject.Some? && c.subject.value != "" ==> k == c.subject.value
  {
    match c.subject
    case None => "Unknown"
    case Some(s) => if s == "" then "Unknown" else s
  }

  function ClassRanking(items: seq<ContentItem>): seq<(string, nat)> {
    Rank(Map(items, ClassKey))
  }

  function SubjectRankingTop5(items: seq<ContentItem>): seq<(string, nat)> {
    var all := Rank(Map(items, SubjectKey));
    all[..if |all| < 5 then |all| else 5]
  }

  function ClassUploadsReply(items: seq<ContentItem>): Reply {
    var ranking := ClassRanking(items);
    if |ranking| > 0 then ClassUploadRanking(ranking) else NoClassData
  }

  /** Ranking items by a key: every entry's key is the key of some item, and the
      ranking is empty only for an empty list. */
  lemma RankByKey(items: seq<ContentItem>, key: ContentItem -> string)
    ensures forall e :: e in Rank(Map(items, key)) ==> exists c :: c in items && key(c) == e.0
    ensures forall c :: c in items ==> exists e :: e in Rank(Map(items, key)) && e.0 == key(c)
    ensures |Rank(Map(items, key))| > 0 <==> items != []
  {
    var keys := Map(items, key);
    RankCorrect(keys);
    forall e | e in Rank(keys)
      ensures exists c :: c in items && key(c) == e.0
    {
      var k :| 0 <= k < |keys| && keys[k] == e.0;
      assert items[k] in items;
    }
    forall c | c in items
      ensures key(c) in keys
    {
      var k :| 0 <= k < |items| && items[k] == c;
      assert keys[k] == key(c);
    }
    if items != [] {
      assert keys[0] in keys;
    }
  }

  /** The class ranking has one entry per class name (a missing name counted as
      "Unknown"), with the number of items of that class, in non-increasing order of
      count, and the counts add up to the number of items. */
  lemma ClassRankingCorrect(items: seq<ContentItem>)
    ensures NonIncreasing(ClassRanking(items))
    ensures Total(ClassRanking(items)) == |items|
    ensures forall e :: e in ClassRanking(items) ==>
      e.0 != "" && e.1 == Occurrences(Map(items, ClassKey), e.0)
    ensures forall c :: c in items ==> exists e :: e in ClassRanking(items) && e.0 == ClassKey(c)
    ensures |ClassRanking(items)| > 0 <==> items != []
  {
    RankCorrect(Map(items, ClassKey));
    RankByKey(items, ClassKey);
  }

  /** The subject ranking holds at most five entries, each a subject with its number
      of items, in non-increasing order of count. */
  lemma SubjectRankingCorrect(items: seq<ContentItem>)
    ensures |SubjectRankingTop5(items)| <= 5
    ensures NonIncreasing(SubjectRankingTop5(items))
    ensures forall e :: e in SubjectRankingTop5(items) ==>
      e.0 != "" && e.1 == Occurrences(Map(items, SubjectKey), e.0)
    ensures |SubjectRankingTop5(items)| > 0 <==> items != []
  {
    var all := Rank(Map(items, SubjectKey));
    RankCorrect(Map(items, SubjectKey));
    SubjectKeysNonEmpty(items);
    TopEntries(all, if |all| < 5 then |all| else 5);
  }

  /** The subject ranking is the top of the full ranking: a subject of some item is
      either among the five shown or has no more items than any of them. */
  lemma SubjectRankingIsTop(items: seq<ContentItem>)
    ensures forall c :: c in items ==>
      (exists e :: e in SubjectRankingTop5(items) && e.0 == SubjectKey(c))
      || (forall e :: e in SubjectRankingTop5(items) ==> Occurrences(Map(items, SubjectKey), SubjectKey(c)) <= e.1)
  {
    var keys := Map(items, SubjectKey);
    var all := Rank(keys);
    RankTop(keys, if |all| < 5 then |all| else 5);
    forall c | c in items
      ensures SubjectKey(c) in keys
    {
      var k :| 0 <= k < |items| && items[k] == c;
      assert keys[k] == SubjectKey(c);
    }
  }

  /** The first `n` entries of a ranking are entries of it, in the same order. */
  lemma TopEntries(all: seq<(string, nat)>, n: nat)
    requires n <= |all|
    ensures forall e :: e in all[..n] ==> e in all
    ensures NonIncreasing(all) ==> NonIncreasing(all[..n])
  {
    forall e | e in all[..n]
      ensures e in all
    {
      var k :| 0 <= k < n && all[..n][k] == e;
      assert all[k] == e;
    }
  }

  lemma SubjectKeysNonEmpty(items: seq<ContentItem>)
    ensures forall e :: e in Rank(Map(items, SubjectKey)) ==> e.0 != ""
    ensures |Rank(Map(items, SubjectKey))| > 0 <==> items != []
  {
    var keys := Map(items, SubjectKey);
    RankCorrect(keys);
    assert forall x :: x in keys ==> x != "";
    if items != [] {
      assert keys[0] in keys;
    }
  }

  // ----- analytics -----

  /** The class a homework-count question asks about; empty when none is named. */
  function AskedClass(q: string): string {
    if Contains(q, "class 6") || Contains(q, "grade 6") then "Grade 6"
    else if Contains(q, "class 5") || Contains(q, "grade 5") then "Grade 5"
    else if Contains(q, "b.e") then "B.E"
    else ""
  }

  predicate HomeworkOfClass(cls: string, c: ContentItem) {
    IsHomework(c) && Contains(c.class_name, cls)
  }

  function HomeworkOfClassPred(cls: string): ContentItem -> bool {
    c => HomeworkOfClass(cls, c)
  }

  function ClassNameOf(c: ContentItem): string { c.class_name }
  function SubjectOf(c: ContentItem): Option<string> { c.subject }

  function AnalyticsReply(q: string, items: seq<ContentItem>): Reply {
    if Contains(q, "total content") || (Contains(q, "how many") && Contains(q, "content")) then
      ContentTotals(|items|, Count(items, HomeworkPred()), Count(items, NotePred()),
        Count(items, AnnouncementPred()), Count(items, AssignmentPred()))
    else if Contains(q, "homework") && (Contains(q, "class") || Contains(q, "grade")) then
      var cls := AskedClass(q);
      if cls != "" then ClassHomework(cls, Filter(items, HomeworkOfClassPred(cls))) else ClassHomeworkHelp
    else if Contains(q, "which subject") || Contains(q, "most uploaded") then
      var ranking := SubjectRankingTop5(items);
      if |ranking| > 0 then SubjectRanking(ranking) else NoSubjectData
    else if Contains(q, "how many") then
      if Contains(q, "homework") then
        var homework := Filter(items, HomeworkPred());
        HomeworkByClass(|homework|, Tally(Map(homework, ClassNameOf)))
      else if Contains(q, "notes") then
        var notes := Filter(items, NotePred());
        NotesBySubject(|notes|, Tally(Map(notes, SubjectOf)))
      else GeneralTotal(|items|)
    else DefaultAnswer
  }

  /** The totals, asked for by "total content" or by "how many" with "content": each
      kind's count is the number of items of that kind, and the homework, announcement
      and assignment counts together never exceed the total. */
  lemma ContentTotalsCorrect(q: string, items: seq<ContentItem>)
    requires Contains(q, "total content") || (Contains(q, "how many") && Contains(q, "content"))
    ensures var r := AnalyticsReply(q, items);
      r.ContentTotals? && r.total == |items|
      && r.homeworkCount == |Filter(items, HomeworkPred())| && r.notesCount == |Filter(items, NotePred())|
      && r.announcementCount == |Filter(items, AnnouncementPred())|
      && r.assignmentCount == |Filter(items, AssignmentPred())|
      && r.homeworkCount + r.announcementCount + r.assignmentCount <= r.total
      && r.homeworkCount + r.announcementCount + r.notesCount <= r.total
  {
    forall c: ContentItem
      ensures !(IsHomework(c) && IsAnnouncement(c)) && !(IsHomework(c) && IsAssignment(c))
        && !(IsAnnouncement(c) && IsAssignment(c)) && !(IsHomework(c) && IsNote(c))
        && !(IsAnnouncement(c) && IsNote(c))
    {
      KindsDisjoint(c);
    }
    CountDisjoint3(items, HomeworkPred(), AnnouncementPred(), AssignmentPred());
    CountDisjoint3(items, HomeworkPred(), AnnouncementPred(), NotePred());
  }

  /** The per-class and per-subject breakdowns add up to the totals they break down. */
  lemma BreakdownsAddUp(q: string, items: seq<ContentItem>)
    ensures AnalyticsReply(q, items).HomeworkByClass? ==>
      Total(AnalyticsReply(q, items).byClass) == AnalyticsReply(q, items).count
    ensures AnalyticsReply(q, items).NotesBySubject? ==>
      Total(AnalyticsReply(q, items).bySubject) == AnalyticsReply(q, items).count
  {
    var r := AnalyticsReply(q, items);
    if r.HomeworkByClass? {
      var homework := Filter(items, HomeworkPred());
      assert r == HomeworkByClass(|homework|, Tally(Map(homework, ClassNameOf)));
      TallyTotal(Map(homework, ClassNameOf));
    } else if r.NotesBySubject? {
      var notes := Filter(items, NotePred());
      assert r == NotesBySubject(|notes|, Tally(Map(notes, SubjectOf)));
      TallyTotal(Map(notes, SubjectOf));
    }
  }

  /** A class homework count covers exactly the homework whose class name contains the
      named class. */
  lemma ClassHomeworkCorrect(q: string, items: seq<ContentItem>)
    ensures AnalyticsReply(q, items).ClassHomework? ==>
      var r := AnalyticsReply(q, items);
      r.className in {"Grade 6", "Grade 5", "B.E"} && IsSubseq(r.homework, items)
      && forall c :: c in r.homework <==> c in items && IsHomework(c) && Contains(c.class_name, r.className)
  {
    FilterIsSubseq(items, HomeworkOfClassPred(AskedClass(q)));
  }

  // ----- upload -----

  /** Later keyword checks override earlier ones. */
  function UploadClass(q: string): string {
    var c0 := "General";
    var c1 := if Contains(q, "b.e") then "B.E" else c0;
    var c2 := if Contains(q, "grade 5") then "Grade 5" else c1;
    if Contains(q, "grade 6") then "Grade 6" else c2
  }

  function UploadSubject(q: string): string {
    var s0 := "General";
    var s1 := if Contains(q, "math") then "Math" else s0;
    var s2 := if Contains(q, "science") then "Science" else s1;
    if Contains(q, "english") then "English" else s2
  }

  function UploadType(q: string): string {
    var t0 := "notes";
    var t1 := if Contains(q, "homework") then "homework" else t0;
    if Contains(q, "assignment") then "assignment" else t1
  }

  /** The keyword precedence, read from the highest: grade 6, then grade 5, then b.e;
      english, then science, then math; assignment, then homework. */
  lemma UploadOverrides(q: string)
    ensures UploadClass(q) == (if Contains(q, "grade 6") then "Grade 6"
      else if Contains(q, "grade 5") then "Grade 5" else if Contains(q, "b.e") then "B.E" else "General")
    ensures UploadSubject(q) == (if Contains(q, "english") then "English"
      else if Contains(q, "science") then "Science" else if Contains(q, "math") then "Math" else "General")
    ensures UploadType(q) == (if Contains(q, "assignment") then "assignment"
      else if Contains(q, "homework") then "homework" else "notes")
  {
  }

  function UploadTitle(q: string): string {
    match Search(TitleCapture, q)
    case Some(t) => Trim(t)
    case None =>
      match Search(AnyQuoted, q)
      case Some(t) => Trim(t)
      case None => "New Content"
  }

  function UploadReply(q: string): Reply {
    var hasTeacherId := Search(TeacherId, q).Some?;
    var hasTitle := Search(TitleLabel, q).Some? || Search(DoubleQuoted, q).Some?;
    if !hasTeacherId || !hasTitle then UploadHelp
    else
      UploadRequest(NewContentRequest(Search(TeacherId, q).value, UploadClass(q), UploadSubject(q),
        UploadType(q), UploadTitle(q), "Added via intelligent chat assistant"))
  }

  /** An upload is sent only with a teacher id and a title in the message; the teacher
      id is then the letters-and-digits word matched in the message, the class,
      subject and type are the ones its keywords select (`UploadOverrides`), and the
      title is the captured or quoted text, trimmed and without quotes, or
      "New Content". */
  lemma UploadReplyCorrect(q: string)
    ensures UploadReply(q).UploadRequest? <==>
      Search(TeacherId, q).Some? && (Search(TitleLabel, q).Some? || Search(DoubleQuoted, q).Some?)
    ensures UploadReply(q).UploadRequest? ==>
      var c := UploadReply(q).content;
      |c.teacher_id| >= 1 && (forall k :: 0 <= k < |c.teacher_id| ==> IsAsciiAlnum(c.teacher_id[k]))
      && Contains(q, c.teacher_id)
      && c.class_name in {"General", "B.E", "Grade 5", "Grade 6"}
      && c.subject in {"General", "Math", "Science", "English"}
      && c.content_type in {"notes", "homework", "assignment"}
      && (c.title == "New Content" || forall k :: 0 <= k < |c.title| ==> !IsQuote(c.title[k]))
    ensures UploadReply(q).UploadRequest? ==>
      var c := UploadReply(q).content;
      c.teacher_id == Search(TeacherId, q).value
      && c.class_name == UploadClass(q) && c.subject == UploadSubject(q)
      && c.content_type == UploadType(q) && c.title == UploadTitle(q)
      && c.description == "Added via intelligent chat assistant"
    ensures !UploadReply(q).UploadRequest? ==> UploadReply(q) == UploadHelp
  {
    if UploadReply(q).UploadRequest? {
      TeacherIdShape(q);
      var c := UploadReply(q).content;
      match Search(TitleCapture, q)
      case Some(t) =>
        TitleCaptureShape(q);
        TrimIsSlice(t);
      case None =>
        match Search(AnyQuoted, q)
        case Some(t) =>
          AnyQuotedShape(q);
          TrimIsSlice(t);
        case None =>
    }
  }

  /** Trimming keeps only characters of the original. */
  lemma TrimIsSlice(s: string)
    ensures forall k :: 0 <= k < |Trim(s)| ==> Trim(s)[k] in s
  {
    var i, j :| 0 <= i <= j <= |s| && Trim(s) == s[i..j];
    forall k | 0 <= k < |Trim(s)|
      ensures Trim(s)[k] in s
    {
      assert Trim(s)[k] == s[i + k];
    }
  }

  // ----- show content -----

  /** The type named in the message, by priority: homework, notes, assignment,
      announcement; every item passes when none is named. */
  predicate TypeWanted(q: string, c: ContentItem) {
    if Contains(q, "homework") then IsHomework(c)
    else if Contains(q, "notes") || Contains(q, "note") then IsNote(c)
    else if Contains(q, "assignment") then IsAssignment(c)
    else if Contains(q, "announcement") then IsAnnouncement(c)
    else true
  }

  predicate DateWanted(q: string, c: ContentItem) {
    if Contains(q, "november 5") then c.date_uploaded == "2025-11-05"
    else if Contains(q, "november 16") then c.date_uploaded == "2025-11-16"
    else true
  }

  /** Class names are matched case-sensitively against the capitalised name. */
  predicate ClassWanted(q: string, c: ContentItem) {
    if Contains(q, "grade 5") then Contains(c.class_name, "Grade 5")
    else if Contains(q, "grade 6") then Contains(c.class_name, "Grade 6")
    else if Contains(q, "b.e") then Contains(c.class_name, "B.E")
    else true
  }

  function TypeWantedPred(q: string): ContentItem -> bool { c => TypeWanted(q, c) }
  function DateWantedPred(q: string): ContentItem -> bool { c => DateWanted(q, c) }
  function ClassWantedPred(q: string): ContentItem -> bool { c => ClassWanted(q, c) }

  /** The three successive filters: by type, then by date, then by class. */
  function ShownItems(q: string, items: seq<ContentItem>): seq<ContentItem> {
    Filter(Filter(Filter(items, TypeWantedPred(q)), DateWantedPred(q)), ClassWantedPred(q))
  }

  function ShowLabel(q: string): string {
    if Contains(q, "homework") then "homework assignments"
    else if Contains(q, "notes") then "notes"
    else if Contains(q, "announcement") then "announcements"
    else if Contains(q, "assignment") then "assignments"
    else "content"
  }

  function RequestedKind(q: string): string {
    if Contains(q, "homework") then "homework"
    else if Contains(q, "notes") then "notes"
    else if Contains(q, "announcement") then "announcements"
    else "content"
  }

  function ShowReply(q: string, items: seq<ContentItem>): Reply {
    var shown := ShownItems(q, items);
    if |shown| > 0 then ShowContent(shown, ShowLabel(q)) else NothingFound(RequestedKind(q))
  }

  /** The items shown keep their order from the content list, and an item is shown
      exactly when it passes the type, date and class conditions of the message. */
  lemma ShowReplyCorrect(q: string, items: seq<ContentItem>)
    ensures IsSubseq(ShownItems(q, items), items)
    ensures forall c :: c in ShownItems(q, items) <==>
      c in items && TypeWanted(q, c) && DateWanted(q, c) && ClassWanted(q, c)
    ensures ShowReply(q, items).NothingFound? <==>
      forall c :: c in items ==> !(TypeWanted(q, c) && DateWanted(q, c) && ClassWanted(q, c))
  {
    var t := Filter(items, TypeWantedPred(q));
    var d := Filter(t, DateWantedPred(q));
    FilterIsSubseq(items, TypeWantedPred(q));
    FilterIsSubseq(t, DateWantedPred(q));
    FilterIsSubseq(d, ClassWantedPred(q));
    SubseqTrans(d, t, items);
    SubseqTrans(ShownItems(q, items), d, items);
    var shown := ShownItems(q, items);
    if shown != [] {
      assert shown[0] in shown;
    }
  }

  // ----- the handler -----

  /** The reply to the lowercased, non-empty message `q`. */
  function Respond(q: string, items: seq<ContentItem>, inLastWeek: string -> bool): Reply {
    match Route(q)
    case GreetingRule => Greeting
    case UpdateRule => UpdateReply(q, items)
    case RemoveRule => RemoveReply(q, items)
    case TeacherProfileRule => TeacherProfileSummary
    case DepartmentNotesRule => DepartmentNotesReport
    case ScienceDepartmentRule => ScienceDepartmentReport
    case RecentTeacherRule => RecentReply(items)
    case WeeklyHomeworkRule => WeeklyReply(items, inLastWeek)
    case ClassUploadsRule => ClassUploadsReply(items)
    case AnalyticsRule => AnalyticsReply(q, items)
    case UploadRule => UploadReply(q)
    case LateAnalyticsRule => AnalyticsReply(q, items)
    case ShowContentRule => ShowReply(q, items)
  }

  /** `sendMessage(text)`: an empty message is ignored; otherwise the lowercased text
      is routed. */
  function SendMessage(text: string, items: seq<ContentItem>, inLastWeek: string -> bool): Reply {
    if text == "" then Ignored else Respond(Lower(text), items, inLastWeek)
  }

  /** A reply that sends a request to the server. */
  predicate IsRequest(r: Reply) {
    r.UpdateRequest? || r.DeleteRequest? || r.UploadRequest?
  }

  /** The analytics questions are answered without a request. */
  lemma AnalyticsSendsNothing(q: string, items: seq<ContentItem>)
    ensures !IsRequest(AnalyticsReply(q, items)) && AnalyticsReply(q, items) != Ignored
  {
  }

  /** Showing content sends no request. */
  lemma ShowSendsNothing(q: string, items: seq<ContentItem>)
    ensures !IsRequest(ShowReply(q, items)) && ShowReply(q, items) != Ignored
  {
  }

  /** Every routed message gets a reply, and requests come only from their own rules. */
  lemma RespondRequests(q: string, items: seq<ContentItem>, inLastWeek: string -> bool)
    ensures Respond(q, items, inLastWeek) != Ignored
    ensures Respond(q, items, inLastWeek).UpdateRequest? ==> Route(q) == UpdateRule
    ensures Respond(q, items, inLastWeek).DeleteRequest? ==> Route(q) == RemoveRule
    ensures Respond(q, items, inLastWeek).UploadRequest? ==> Route(q) == UploadRule
  {
    var r := Respond(q, items, inLastWeek);
    match Route(q)
    case UpdateRule =>
      assert r == UpdateReply(q, items);
    case RemoveRule =>
      assert r == RemoveReply(q, items);
    case UploadRule =>
      assert r == UploadReply(q);
    case AnalyticsRule =>
      AnalyticsSendsNothing(q, items);
    case LateAnalyticsRule =>
      AnalyticsSendsNothing(q, items);
    case ShowContentRule =>
      ShowSendsNothing(q, items);
    case _ =>
      assert !IsRequest(r) && r != Ignored;
  }

  /** Requests to the server come only from the update, remove and upload rules, and an
      empty message produces no reply at all. */
  lemma RequestsOnlyFromTheirRules(text: string, items: seq<ContentItem>, inLastWeek: string -> bool)
    ensures SendMessage(text, items, inLastWeek) == Ignored <==> text == ""
    ensures SendMessage(text, items, inLastWeek).UpdateRequest? ==> Route(Lower(text)) == UpdateRule
    ensures SendMessage(text, items, inLastWeek).DeleteRequest? ==> Route(Lower(text)) == RemoveRule
    ensures SendMessage(text, items, inLastWeek).UploadRequest? ==> Route(Lower(text)) == UploadRule
  {
    if text != "" {
      RespondRequests(Lower(text), items, inLastWeek);
    }
  }
}

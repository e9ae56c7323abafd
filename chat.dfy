/** The older chat page's message handler: greetings and help first, then update,
    remove and upload requests, and otherwise a filtered listing of the content.
    As in the newer assistant, the reply is modelled as the answer chosen plus the
    data it is built from. */
module Chat {
  import opened Common
  import opened Text
  import opened Records
  import opened Patterns

  /** The rules of the chain, in the order they are tried. */
  datatype Rule = GreetingRule | HelpRule | UpdateRule | RemoveRule | UploadRule | FilterRule

  function Priority(r: Rule): nat {
    match r
    case GreetingRule => 0
    case HelpRule => 1
    case UpdateRule => 2
    case RemoveRule => 3
    case UploadRule => 4
    case FilterRule => 5
  }

  predicate Guard(r: Rule, q: string) {
    match r
    case GreetingRule => IsGreeting(q)
    case HelpRule => Contains(q, "help") || Contains(q, "what can you do")
    case UpdateRule => Contains(q, "update") && Contains(q, "title")
    case RemoveRule => Contains(q, "remove") || Contains(q, "delete")
    case UploadRule => Contains(q, "upload") || Contains(q, "add")
    case FilterRule => true
  }

  function Route(q: string): Rule {
    if Guard(GreetingRule, q) then GreetingRule
    else if Guard(HelpRule, q) then HelpRule
    else if Guard(UpdateRule, q) then UpdateRule
    else if Guard(RemoveRule, q) then RemoveRule
    else if Guard(UploadRule, q) then UploadRule
    else FilterRule
  }

  /** First match wins: the selected rule's condition holds and no earlier rule's does. */
  lemma RouteIsFirstMatch(q: string)
    ensures Guard(Route(q), q)
    ensures forall r: Rule :: Priority(r) < Priority(Route(q)) ==> !Guard(r, q)
  {
    forall r: Rule | Priority(r) < Priority(Route(q))
      ensures !Guard(r, q)
    {
      match r
      case GreetingRule =>
      case HelpRule =>
      case UpdateRule =>
      case RemoveRule =>
      case UploadRule =>
      case FilterRule =>
    }
  }

  datatype Reply =
    | Ignored                                              // empty message
    | Greeting
    | Help
    | UpdateRequest(target: ContentItem, newTitle: string)  // PUT of the new title
    | UpdateHelp
    | DeleteRequest(target: ContentItem)                   // DELETE of the target
    | RemoveNotFound
    | UploadRequest(content: NewContentRequest)           // POST of the new content
    | Found(items: seq<ContentItem>, kind: string)
    | NothingFound(kind: string, date: string)

  // ----- update -----

  predicate TitleMentioned(q: string, c: ContentItem) {
    Contains(q, Lower(c.title))
  }

  function TitleMentionedPred(q: string): ContentItem -> bool { c => TitleMentioned(q, c) }

  function TitleHasPred(word: string): ContentItem -> bool { (c: ContentItem) => Contains(Lower(c.title), word) }

  predicate IsToWord(w: string) { Lower(w) == "to" }

  function ToWord(): string -> bool { w => IsToWord(w) }

  /** `.replace(/[\[\]]/g, '')` */
  function StripBrackets(s: string): (r: string)
    ensures '[' !in r && ']' !in r
    ensures forall d :: d != '[' && d != ']' ==> (d in r <==> d in s)
  {
    ReplaceChar(ReplaceChar(s, '[', ""), ']', "")
  }

  /** The words of the original text after the first word that is "to" in any case,
      joined by single spaces, without brackets; None when no word is "to". */
  function WordsAfterTo(text: string): Option<string> {
    var words := Split(text, ' ');
    match FirstIndex(words, ToWord())
    case None => None
    case Some(k) => Some(StripBrackets(Join(words[k + 1..], ' ')))
  }

  /** The target and new title of an update request. The two built-in phrasings are
      tried first; otherwise the new title is the text after the word "to" and the
      target is the first item whose title the message mentions. */
  function UpdateArgs(text: string, q: string, items: seq<ContentItem>): (Option<ContentItem>, string) {
    if Contains(q, "earth") && Contains(q, "globe") then
      (FindFirst(items, TitleHasPred("earth")), "globe")
    else if Contains(q, "social") && Contains(q, "math") then
      (FindFirst(items, TitleHasPred("social")), "math")
    else
      match WordsAfterTo(text)
      case None => (None, "")
      case Some(t) => (FindFirst(items, TitleMentionedPred(q)), t)
  }

  /** `c` is the first item whose title the message mentions. */
  predicate FirstMentioned(q: string, items: seq<ContentItem>, c: ContentItem) {
    exists i :: 0 <= i < |items| && items[i] == c && TitleMentioned(q, items[i])
      && forall j :: 0 <= j < i ==> !TitleMentioned(q, items[j])
  }

  function UpdateReply(text: string, q: string, items: seq<ContentItem>): Reply {
    var (target, newTitle) := UpdateArgs(text, q, items);
    if target.Some? && newTitle != "" then UpdateRequest(target.value, newTitle) else UpdateHelp
  }

  /** `c` is the first item whose lowercased title contains `word`. */
  predicate FirstTitleHas(word: string, items: seq<ContentItem>, c: ContentItem) {
    exists i :: 0 <= i < |items| && items[i] == c && Contains(Lower(items[i].title), word)
      && forall j :: 0 <= j < i ==> !Contains(Lower(items[j].title), word)
  }

  /** The built-in phrasings take precedence over the "to" rule: "earth" with "globe"
      renames the first item whose title mentions "earth" to "globe". */
  lemma EarthToGlobe(text: string, q: string, items: seq<ContentItem>)
    requires Contains(q, "earth") && Contains(q, "globe")
    ensures UpdateReply(text, q, items).UpdateRequest? <==>
      exists i :: 0 <= i < |items| && Contains(Lower(items[i].title), "earth")
    ensures UpdateReply(text, q, items).UpdateRequest? ==> UpdateReply(text, q, items).newTitle == "globe"
    ensures UpdateReply(text, q, items).UpdateRequest? ==> FirstTitleHas("earth", items, UpdateReply(text, q, items).target)
  {
    if exists i :: 0 <= i < |items| && Contains(Lower(items[i].title), "earth") {
      var i :| 0 <= i < |items| && Contains(Lower(items[i].title), "earth");
      assert TitleHasPred("earth")(items[i]);
    }
  }

  /** Otherwise "social" with "math" renames the first item whose title mentions
      "social" to "math". */
  lemma SocialToMath(text: string, q: string, items: seq<ContentItem>)
    requires !(Contains(q, "earth") && Contains(q, "globe")) && Contains(q, "social") && Contains(q, "math")
    ensures UpdateReply(text, q, items).UpdateRequest? <==>
      exists i :: 0 <= i < |items| && Contains(Lower(items[i].title), "social")
    ensures UpdateReply(text, q, items).UpdateRequest? ==> UpdateReply(text, q, items).newTitle == "math"
    ensures UpdateReply(text, q, items).UpdateRequest? ==> FirstTitleHas("social", items, UpdateReply(text, q, items).target)
  {
    if exists i :: 0 <= i < |items| && Contains(Lower(items[i].title), "social") {
      var i :| 0 <= i < |items| && Contains(Lower(items[i].title), "social");
      assert TitleHasPred("social")(items[i]);
    }
  }

  /** In "<a> to <b>", where no word of `a` is "to" in any case, the new title is `b`
      without brackets. */
  lemma WordsAfterToOfPhrase(a: string, b: string)
    requires forall k :: 0 <= k < |Split(a, ' ')| ==> !IsToWord(Split(a, ' ')[k])
    ensures WordsAfterTo(a + " to " + b) == Some(StripBrackets(b))
  {
    var words := Split(a + " to " + b, ' ');
    var n := |Split(a, ' ')|;
    PhraseWords(a, b);
    assert IsToWord(words[n]);
    forall k | 0 <= k < n
      ensures !ToWord()(words[k])
    {
      assert words[k] == Split(a, ' ')[k];
    }
    FirstIndexIs(words, ToWord(), n);
    assert words[n + 1..] == Split(b, ' ');
    JoinSplit(b, ' ');
  }

  /** The words of "<a> to <b>" are those of `a`, then "to", then those of `b`. */
  lemma PhraseWords(a: string, b: string)
    ensures Split(a + " to " + b, ' ') == Split(a, ' ') + ["to"] + Split(b, ' ')
  {
    assert a + " to " + b == a + [' '] + ("to" + [' '] + b);
    SplitConcat(a, ' ', "to" + [' '] + b);
    SplitHead("to", ' ', b);
  }

  /** Outside the built-in phrasings, an update request needs a "to" word, names the
      first item whose title the message mentions, and carries no brackets. */
  lemma UpdateByToWord(text: string, q: string, items: seq<ContentItem>)
    requires !(Contains(q, "earth") && Contains(q, "globe")) && !(Contains(q, "social") && Contains(q, "math"))
    ensures UpdateReply(text, q, items).UpdateRequest? <==>
      WordsAfterTo(text).Some? && WordsAfterTo(text).value != ""
      && exists i :: 0 <= i < |items| && TitleMentioned(q, items[i])
    ensures UpdateReply(text, q, items).UpdateRequest? ==>
      var r := UpdateReply(text, q, items);
      r.newTitle == WordsAfterTo(text).value && '[' !in r.newTitle && ']' !in r.newTitle
      && FirstMentioned(q, items, r.target)
  {
    var p := TitleMentionedPred(q);
    if WordsAfterTo(text).Some? && exists i :: 0 <= i < |items| && TitleMentioned(q, items[i]) {
      var i :| 0 <= i < |items| && TitleMentioned(q, items[i]);
      assert p(items[i]);
      var f := FirstIndex(items, p).value;
      assert p(items[f]);
    }
  }

  // ----- remove -----

  /** The remove rule's item test: the title is mentioned, or the message mentions
      announcements and the type is exactly "announcement", or the message mentions
      homework and the item is homework. */
  predicate RemoveMatch(q: string, c: ContentItem) {
    TitleMentioned(q, c)
    || (Contains(q, "announcement") && c.content_type == "announcement")
    || (Contains(q, "homework") && IsHomework(c))
  }

  function RemoveMatchPred(q: string): ContentItem -> bool { c => RemoveMatch(q, c) }

  function RemoveReply(q: string, items: seq<ContentItem>): Reply {
    match FindFirst(items, RemoveMatchPred(q))
    case Some(t) => DeleteRequest(t)
    case None => RemoveNotFound
  }

  /** A delete request names the first item passing the remove test. */
  lemma RemoveReplyCorrect(q: string, items: seq<ContentItem>)
    ensures RemoveReply(q, items).DeleteRequest? <==> exists i :: 0 <= i < |items| && RemoveMatch(q, items[i])
    ensures RemoveReply(q, items).DeleteRequest? ==>
      exists i :: 0 <= i < |items| && items[i] == RemoveReply(q, items).target
        && RemoveMatch(q, items[i]) && forall j :: 0 <= j < i ==> !RemoveMatch(q, items[j])
    ensures !RemoveReply(q, items).DeleteRequest? ==> RemoveReply(q, items) == RemoveNotFound
  {
    var p := RemoveMatchPred(q);
    if exists i :: 0 <= i < |items| && RemoveMatch(q, items[i]) {
      var i :| 0 <= i < |items| && RemoveMatch(q, items[i]);
      assert p(items[i]);
      var f := FirstIndex(items, p).value;
      assert p(items[f]);
    }
  }

  // ----- upload -----

  function UploadClass(q: string): string {
    var c1 := if Contains(q, "b.e") then "B.E" else "General";
    var c2 := if Contains(q, "grade 5") then "Grade 5" else c1;
    if Contains(q, "grade 6") then "Grade 6" else c2
  }

  function UploadSubject(q: string): string {
    var s1 := if Contains(q, "math") then "Math" else "General";
    var s2 := if Contains(q, "science") then "Science" else s1;
    var s3 := if Contains(q, "english") then "English" else s2;
    if Contains(q, "computer") then "Computer Science" else s3
  }

  function UploadType(q: string): string {
    var t1 := if Contains(q, "homework") then "homework" else "notes";
    if Contains(q, "assignment") then "assignment" else t1
  }

  function UploadReply(q: string): Reply {
    var subject := UploadSubject(q);
    var kind := UploadType(q);
    UploadRequest(NewContentRequest("CHAT001", UploadClass(q), subject, kind,
      "New " + subject + " " + kind, "Added via chat interface"))
  }

  /** Every upload is sent, by the fixed chat teacher, with a title naming its subject
      and type; later keyword checks override earlier ones. */
  lemma UploadReplyCorrect(q: string)
    ensures UploadReply(q).UploadRequest?
    ensures var c := UploadReply(q).content;
      c.teacher_id == "CHAT001" && c.title == "New " + c.subject + " " + c.content_type
      && c.description == "Added via chat interface"
      && c.class_name == (if Contains(q, "grade 6") then "Grade 6"
        else if Contains(q, "grade 5") then "Grade 5" else if Contains(q, "b.e") then "B.E" else "General")
      && c.subject == (if Contains(q, "computer") then "Computer Science"
        else if Contains(q, "english") then "English" else if Contains(q, "science") then "Science"
        else if Contains(q, "math") then "Math" else "General")
      && c.content_type == (if Contains(q, "assignment") then "assignment"
        else if Contains(q, "homework") then "homework" else "notes")
  {
  }

  // ----- filter -----

  predicate TypeWanted(q: string, c: ContentItem) {
    if Contains(q, "homework") then IsHomework(c)
    else if Contains(q, "notes") || Contains(q, "note") then IsNote(c)
    else if Contains(q, "announcement") then IsAnnouncement(c)
    else if Contains(q, "assignment") then IsAssignment(c)
    else true
  }

  predicate DateWanted(q: string, c: ContentItem) {
    if Contains(q, "november 5") || Contains(q, "nov 5") then c.date_uploaded == "2025-11-05"
    else if Contains(q, "november 16") || Contains(q, "nov 16") then c.date_uploaded == "2025-11-16"
    else true
  }

  /** Class names are matched after lowercasing. */
  predicate ClassWanted(q: string, c: ContentItem) {
    if Contains(q, "grade 5") then Contains(Lower(c.class_name), "grade 5")
    else if Contains(q, "grade 6") then Contains(Lower(c.class_name), "grade 6")
    else if Contains(q, "b.e") then Contains(Lower(c.class_name), "b.e")
    else true
  }

  function TypeWantedPred(q: string): ContentItem -> bool { c => TypeWanted(q, c) }
  function DateWantedPred(q: string): ContentItem -> bool { c => DateWanted(q, c) }
  function ClassWantedPred(q: string): ContentItem -> bool { c => ClassWanted(q, c) }

  function ShownItems(q: string, items: seq<ContentItem>): seq<ContentItem> {
    Filter(Filter(Filter(items, TypeWantedPred(q)), DateWantedPred(q)), ClassWantedPred(q))
  }

  function RequestedKind(q: string): string {
    if Contains(q, "homework") then "homework"
    else if Contains(q, "notes") then "notes"
    else if Contains(q, "announcement") then "announcements"
    else "content"
  }

  /** The date named in a "nothing found" answer: only the spelled-out month counts. */
  function RequestedDate(q: string): string {
    if Contains(q, "november 5") then "November 5th"
    else if Contains(q, "november 16") then "November 16th"
    else ""
  }

  function FilterReply(q: string, items: seq<ContentItem>): Reply {
    var shown := ShownItems(q, items);
    if |shown| > 0 then Found(shown, RequestedKind(q)) else NothingFound(RequestedKind(q), RequestedDate(q))
  }

  /** The listing keeps the content order, and an item is listed exactly when it
      passes the type, date and class conditions of the message. */
  lemma FilterReplyCorrect(q: string, items: seq<ContentItem>)
    ensures IsSubseq(ShownItems(q, items), items)
    ensures forall c :: c in ShownItems(q, items) <==>
      c in items && TypeWanted(q, c) && DateWanted(q, c) && ClassWanted(q, c)
    ensures FilterReply(q, items).NothingFound? <==>
      forall c :: c in items ==> !(TypeWanted(q, c) && DateWanted(q, c) && ClassWanted(q, c))
  {
    var t := Filter(items, TypeWantedPred(q));
    var d := Filter(t, DateWantedPred(q));
    FilterIsSubseq(items, TypeWantedPred(q));
    FilterIsSubseq(t, DateWantedPred(q));
    FilterIsSubseq(d, ClassWantedPred(q));
    SubseqTrans(d, t, items);
    SubseqTrans(ShownItems(q, items), d, items);
    var shown := ShownItems(q, items);
    if shown != [] {
      assert shown[0] in shown;
    }
  }

  /** The empty answer names a date exactly when the message spells out "november 5"
      or "november 16"; the items were then filtered by that date, except that a
      "nov 5" elsewhere in a message naming November 16th filters by the 5th. */
  lemma RequestedDateCorrect(q: string)
    ensures RequestedDate(q) != "" <==> Contains(q, "november 5") || Contains(q, "november 16")
    ensures RequestedDate(q) == "November 5th" ==> forall c :: DateWanted(q, c) <==> c.date_uploaded == "2025-11-05"
    ensures RequestedDate(q) == "November 16th" ==>
      forall c :: DateWanted(q, c) <==> c.date_uploaded == (if Contains(q, "nov 5") then "2025-11-05" else "2025-11-16")
  {
  }

  /** With only the abbreviated month, the date filter applies but an empty answer
      names no date. */
  lemma AbbreviatedDateNotNamed()
    ensures forall c :: DateWanted("show nov 5", c) <==> c.date_uploaded == "2025-11-05"
    ensures RequestedDate("show nov 5") == ""
  {
    assert OccursAt("show nov 5", "nov 5", 5);
    NoNovember("show nov 5");
  }

  lemma NoNovember(q: string)
    requires q == "show nov 5"
    ensures !Contains(q, "november 5") && !Contains(q, "november 16")
  {
    if Contains(q, "november 5") {
      var i: nat :| i <= |q| && OccursAt(q, "november 5", i);
      OccursAtStart(q, "november 5", i);
      assert false;
    }
  }

  // ----- the handler -----

  /** The reply to a non-empty message `text`, given its lowercased form `q`. */
  function Respond(text: string, q: string, items: seq<ContentItem>): Reply {
    match Route(q)
    case GreetingRule => Greeting
    case HelpRule => Help
    case UpdateRule => UpdateReply(text, q, items)
    case RemoveRule => RemoveReply(q, items)
    case UploadRule => UploadReply(q)
    case FilterRule => FilterReply(q, items)
  }

  /** `sendMessage(text)` */
  function SendMessage(text: string, items: seq<ContentItem>): Reply {
    if text == "" then Ignored else Respond(text, Lower(text), items)
  }

  /** Every non-empty message that is not a greeting and not a request for help, and
      that mentions neither an update of a title nor removal, but mentions uploading
      or adding, sends an upload. */
  lemma UploadAlwaysSent(text: string, items: seq<ContentItem>)
    requires text != ""
    requires var q := Lower(text);
      !IsGreeting(q) && !Guard(HelpRule, q) && !Guard(UpdateRule, q) && !Guard(RemoveRule, q)
      && (Contains(q, "upload") || Contains(q, "add"))
    ensures SendMessage(text, items).UploadRequest?
    ensures SendMessage(text, items).content.teacher_id == "CHAT001"
  {
  }

  /** Requests to the server come only from their rules, and only a non-empty message
      gets a reply. */
  lemma RequestsOnlyFromTheirRules(text: string, items: seq<ContentItem>)
    ensures SendMessage(text, items) == Ignored <==> text == ""
    ensures SendMessage(text, items).UpdateRequest? ==> Route(Lower(text)) == UpdateRule
    ensures SendMessage(text, items).DeleteRequest? ==> Route(Lower(text)) == RemoveRule
    ensures SendMessage(text, items).UploadRequest? ==> Route(Lower(text)) == UploadRule
  {
  }
}

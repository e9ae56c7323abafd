/** The content page: the statistics cards, the escaping used when content is
    rendered as HTML, the attachment list as it travels through the edit button and
    the form, and the add/edit and delete dialogs. Rendering, `fetch` and the
    network are left out; requests are returned as values. */
module ContentPage {
  import opened Common
  import opened Text
  import opened Records

  // ----- escaping -----

  /** `escapeHtml`: `&` first, then `<` and `>`. */
  function EscapeHtml(s: string): (r: string)
    ensures '<' !in r && '>' !in r
    ensures '"' in r <==> '"' in s
  {
    var a := ReplaceChar(s, '&', "&amp;");
    var b := ReplaceChar(a, '<', "&lt;");
    assert '"' !in "&amp;" && '"' !in "&lt;" && '"' !in "&gt;" && '<' !in "&gt;";
    ReplaceChar(b, '>', "&gt;")
  }

  /** `escapeAttr` as written: only the double quote is replaced. */
  function EscapeAttr(s: string): (r: string)
    ensures '"' !in r
    ensures '"' !in s ==> r == s
    ensures forall d :: d != '"' && d !in "&quot;" ==> (d in r <==> d in s)
  {
    ReplaceChar(s, '"', "&quot;")
  }

  /** The attribute escaping the edit button needs: `&` first, then the double quote. */
  function EscapeAttrSafe(s: string): (r: string)
    ensures '"' !in r
  {
    ReplaceChar(ReplaceChar(s, '&', "&amp;"), '"', "&quot;")
  }

  predicate StartsWith(s: string, p: string) {
    |p| <= |s| && s[..|p|] == p
  }

  /** What the browser reads back from escaped text: the character references
      `&amp;`, `&lt;`, `&gt;` and `&quot;` become their characters. */
  function DecodeEntities(s: string): string
    decreases |s|
  {
    if s == [] then []
    else if StartsWith(s, "&amp;") then "&" + DecodeEntities(s[5..])
    else if StartsWith(s, "&lt;") then "<" + DecodeEntities(s[4..])
    else if StartsWith(s, "&gt;") then ">" + DecodeEntities(s[4..])
    else if StartsWith(s, "&quot;") then "\"" + DecodeEntities(s[6..])
    else [s[0]] + DecodeEntities(s[1..])
  }

  /** Because `&` is replaced first, a `<` becomes exactly one reference. */
  lemma EscapeHtmlLessThan()
    ensures EscapeHtml("<") == "&lt;"
  {
    assert ReplaceChar("<", '&', "&amp;") == "<" by {
      assert '&' !in "<";
    }
    assert ReplaceChar("<", '<', "&lt;") == "&lt;" + ReplaceChar("", '<', "&lt;");
    assert '>' !in "&lt;";
  }

  function HtmlChar(x: char): string {
    if x == '&' then "&amp;" else if x == '<' then "&lt;" else if x == '>' then "&gt;" else [x]
  }

  function AttrChar(x: char): string {
    if x == '&' then "&amp;" else if x == '"' then "&quot;" else [x]
  }

  lemma ReplaceOne(x: char, c: char, rep: string)
    ensures ReplaceChar([x], c, rep) == if x == c then rep else [x]
  {
    assert [x][1..] == [];
  }

  lemma {:induction false} EscapeHtmlAppend(a: string, b: string)
    ensures EscapeHtml(a + b) == EscapeHtml(a) + EscapeHtml(b)
  {
    var r1a, r1b := ReplaceChar(a, '&', "&amp;"), ReplaceChar(b, '&', "&amp;");
    ReplaceCharAppend(a, b, '&', "&amp;");
    var r2a, r2b := ReplaceChar(r1a, '<', "&lt;"), ReplaceChar(r1b, '<', "&lt;");
    ReplaceCharAppend(r1a, r1b, '<', "&lt;");
    ReplaceCharAppend(r2a, r2b, '>', "&gt;");
  }

  lemma EscapeHtmlChar(x: char)
    ensures EscapeHtml([x]) == HtmlChar(x)
  {
    ReplaceOne(x, '&', "&amp;");
    if x == '&' {
      assert '<' !in "&amp;" && '>' !in "&amp;";
    } else {
      ReplaceOne(x, '<', "&lt;");
      if x == '<' {
        assert '>' !in "&lt;";
      } else {
        ReplaceOne(x, '>', "&gt;");
      }
    }
  }

  lemma {:induction false} EscapeAttrSafeAppend(a: string, b: string)
    ensures EscapeAttrSafe(a + b) == EscapeAttrSafe(a) + EscapeAttrSafe(b)
  {
    ReplaceCharAppend(a, b, '&', "&amp;");
    ReplaceCharAppend(ReplaceChar(a, '&', "&amp;"), ReplaceChar(b, '&', "&amp;"), '"', "&quot;");
  }

  lemma EscapeAttrSafeChar(x: char)
    ensures EscapeAttrSafe([x]) == AttrChar(x)
  {
    ReplaceOne(x, '&', "&amp;");
    if x == '&' {
      assert '"' !in "&amp;";
    } else {
      ReplaceOne(x, '"', "&quot;");
    }
  }

  /** Decoding a reference and what follows it. */
  lemma DecodeReference(p: string, c: char, t: string)
    requires (p == "&amp;" && c == '&') || (p == "&lt;" && c == '<')
      || (p == "&gt;" && c == '>') || (p == "&quot;" && c == '"')
    ensures DecodeEntities(p + t) == [c] + DecodeEntities(t)
  {
    var s := p + t;
    assert s[..|p|] == p;
    assert s[|p|..] == t;
    if p == "&lt;" {
      assert !StartsWith(s, "&amp;") by { assert s[1] == 'l'; }
    } else if p == "&gt;" {
      assert !StartsWith(s, "&amp;") by { assert s[1] == 'g'; }
      assert !StartsWith(s, "&lt;") by { assert s[1] == 'g'; }
    } else if p == "&quot;" {
      assert !StartsWith(s, "&amp;") by { assert s[1] == 'q'; }
      assert !StartsWith(s, "&lt;") by { assert s[1] == 'q'; }
      assert !StartsWith(s, "&gt;") by { assert s[1] == 'q'; }
    }
  }

  /** A character other than `&` is read back as itself. */
  lemma DecodePlain(x: char, t: string)
    requires x != '&'
    ensures DecodeEntities([x] + t) == [x] + DecodeEntities(t)
  {
    var s := [x] + t;
    assert s[0] == x;
    assert s[1..] == t;
    assert !StartsWith(s, "&amp;") && !StartsWith(s, "&lt;") && !StartsWith(s, "&gt;")
      && !StartsWith(s, "&quot;");
  }

  /** Escaped text is read back as the original text. */
  lemma {:induction false} EscapeHtmlRoundTrip(s: string)
    ensures DecodeEntities(EscapeHtml(s)) == s
    decreases |s|
  {
    if s == [] {
      assert EscapeHtml(s) == [];
    } else {
      var x, rest := s[0], s[1..];
      assert s == [x] + rest;
      EscapeHtmlAppend([x], rest);
      EscapeHtmlChar(x);
      EscapeHtmlRoundTrip(rest);
      DecodeHtmlChar(x, EscapeHtml(rest));
    }
  }

  lemma DecodeHtmlChar(x: char, e: string)
    ensures DecodeEntities(HtmlChar(x) + e) == [x] + DecodeEntities(e)
  {
    if x == '&' {
      DecodeReference("&amp;", '&', e);
    } else if x == '<' {
      DecodeReference("&lt;", '<', e);
    } else if x == '>' {
      DecodeReference("&gt;", '>', e);
    } else {
      DecodePlain(x, e);
    }
  }

  /** With `&` escaped too, an attribute value is read back as the original text. */
  lemma {:induction false} EscapeAttrSafeRoundTrip(s: string)
    ensures DecodeEntities(EscapeAttrSafe(s)) == s
    decreases |s|
  {
    if s == [] {
      assert EscapeAttrSafe(s) == [];
    } else {
      var x, rest := s[0], s[1..];
      assert s == [x] + rest;
      var e := EscapeAttrSafe(rest);
      EscapeAttrSafeAppend([x], rest);
      EscapeAttrSafeChar(x);
      assert EscapeAttrSafe(s) == AttrChar(x) + e;
      EscapeAttrSafeRoundTrip(rest);
      DecodeAttrChar(x, e);
    }
  }

  lemma DecodeAttrChar(x: char, e: string)
    ensures DecodeEntities(AttrChar(x) + e) == [x] + DecodeEntities(e)
  {
    if x == '&' {
      DecodeReference("&amp;", '&', e);
    } else if x == '"' {
      DecodeReference("&quot;", '"', e);
    } else {
      DecodePlain(x, e);
    }
  }

  /** As written, the attribute escaping loses text: a literal `&quot;` and a double
      quote are escaped alike, and both are read back as a double quote. */
  lemma EscapeAttrLosesText()
    ensures EscapeAttr("&quot;") == EscapeAttr("\"")
    ensures DecodeEntities(EscapeAttr("&quot;")) != "&quot;"
  {
    assert '"' !in "&quot;";
    ReplaceOne('"', '"', "&quot;");
    assert "&quot;" == "&quot;" + "";
    DecodeReference("&quot;", '"', "");
  }

  // ----- attachment lists -----

  function NonEmptyPred(): string -> bool { u => u != "" }

  /** The edit button's attachment value read back: split at commas, empty parts dropped. */
  function AttachmentsFromDataset(v: string): seq<string> {
    Filter(Split(v, ','), NonEmptyPred())
  }

  /** The form's attachment field on submit: empty gives no attachments; otherwise the
      parts between commas, each trimmed. */
  function AttachmentsFromField(v: string): (r: seq<string>)
    ensures v == "" ==> r == []
    ensures v != "" ==> |r| == |Filter(v, (d: char) => d == ',')| + 1
    ensures v != "" ==> |r| == |Split(v, ',')| && forall k :: 0 <= k < |r| ==> r[k] == Trim(Split(v, ',')[k])
    ensures forall k :: 0 <= k < |r| ==> ',' !in r[k]
    ensures forall k :: 0 <= k < |r| ==> r[k] == [] || (!IsJsSpace(r[k][0]) && !IsJsSpace(r[k][|r[k]| - 1]))
  {
    if v == "" then []
    else
      var parts := Split(v, ',');
      SplitCount(v, ',');
      var r := Map(parts, Trim);
      forall k | 0 <= k < |r|
        ensures ',' !in r[k]
      {
        TrimExcludes(parts[k], ',');
      }
      r
  }

  /** A usable attachment: non-empty, without commas, with no white space at either end. */
  predicate PlainUrl(u: string) {
    u != "" && ',' !in u && !IsJsSpace(u[0]) && !IsJsSpace(u[|u| - 1])
  }

  /** Joining the list with commas and reading it back from the edit button gives the
      list back when no entry is empty or holds a comma. */
  lemma DatasetRoundTrip(urls: seq<string>)
    requires forall k :: 0 <= k < |urls| ==> urls[k] != "" && ',' !in urls[k]
    ensures AttachmentsFromDataset(Join(urls, ',')) == urls
  {
    if urls == [] {
      assert Split("", ',') == [""];
      assert Filter([""], NonEmptyPred()) == [];
    } else {
      SplitJoin(urls, ',');
      FilterAll(urls, NonEmptyPred());
    }
  }

  /** Joining the list into the form field and submitting it gives the list back when
      every entry is a plain URL. */
  lemma FieldRoundTrip(urls: seq<string>)
    requires forall k :: 0 <= k < |urls| ==> PlainUrl(urls[k])
    ensures AttachmentsFromField(Join(urls, ',')) == urls
  {
    if urls != [] {
      var v := Join(urls, ',');
      assert |v| >= |urls[0]| > 0;
      SplitJoin(urls, ',');
      assert AttachmentsFromField(v) == Map(urls, Trim);
      TrimAll(urls);
    }
  }

  lemma TrimAll(urls: seq<string>)
    requires forall k :: 0 <= k < |urls| ==> PlainUrl(urls[k])
    ensures Map(urls, Trim) == urls
  {
    var r := Map(urls, Trim);
    forall k | 0 <= k < |urls|
      ensures r[k] == urls[k]
    {
      TrimOfTrimmed(urls[k]);
    }
  }

  /** A string with no white space at either end is its own trim. */
  lemma TrimOfTrimmed(u: string)
    requires u != "" && !IsJsSpace(u[0]) && !IsJsSpace(u[|u| - 1])
    ensures Trim(u) == u
  {
    assert LeadingSpace(u) == 0;
    assert u[0..] == u;
    assert TrailingSpace(u) == 0;
  }

  // ----- statistics -----

  datatype Stats = Stats(total: nat, homework: nat, notes: nat, announcements: nat)

  /** `updateStats`: homework and announcements by exact lowercased type, notes by the
      substring "note". */
  function UpdateStats(contents: seq<ContentItem>): Stats {
    Stats(|contents|, Count(contents, HomeworkPred()), Count(contents, NotePred()), Count(contents, AnnouncementPred()))
  }

  /** No card counts an item twice, so the three kinds together never exceed the total. */
  lemma StatsBounded(contents: seq<ContentItem>)
    ensures var s := UpdateStats(contents);
      s.total == |contents| && s.homework + s.notes + s.announcements <= s.total
      && s.homework == |Filter(contents, HomeworkPred())|
      && s.notes == |Filter(contents, NotePred())|
      && s.announcements == |Filter(contents, AnnouncementPred())|
  {
    forall c: ContentItem
      ensures !(IsHomework(c) && IsNote(c)) && !(IsHomework(c) && IsAnnouncement(c)) && !(IsNote(c) && IsAnnouncement(c))
    {
      KindsDisjoint(c);
    }
    CountDisjoint3(contents, HomeworkPred(), NotePred(), AnnouncementPred());
  }

  // ----- dialogs -----

  /** The values of the content form. */
  datatype FormFields = FormFields(
    teacher_id: string,
    class_name: string,
    subject: string,
    content_type: string,
    title: string,
    description: string,
    attachment_urls: string)

  const EmptyForm := FormFields("", "", "", "", "", "", "")

  /** The JSON body sent on submit. */
  datatype ContentData = ContentData(
    teacher_id: string,
    class_name: string,
    subject: string,
    content_type: string,
    title: string,
    description: string,
    attachment_urls: seq<string>)

  datatype Request =
    | Put(id: string, body: ContentData)
    | Post(body: ContentData)
    | Delete(id: string)

  /** Where a click on the window landed. */
  datatype ClickTarget = ContentModalBackdrop | DeleteModalBackdrop | Elsewhere

  function FieldOr(o: Option<string>): string {
    match o
    case None => ""
    case Some(s) => s
  }

  /** The data the edit button carries, as the browser reads it back from the
      attributes escaped as written. */
  function EditData(c: ContentItem): FormFields {
    FormFields(
      DecodeEntities(EscapeAttr(c.teacher_id)),
      DecodeEntities(EscapeAttr(c.class_name)),
      DecodeEntities(EscapeAttr(FieldOr(c.subject))),
      DecodeEntities(EscapeAttr(c.content_type)),
      DecodeEntities(EscapeAttr(c.title)),
      DecodeEntities(EscapeAttr(FieldOr(c.description))),
      Join(AttachmentsFromDataset(DecodeEntities(EscapeAttr(Join(c.attachment_urls, ',')))), ','))
  }

  /** The same data with the attribute escaping corrected. */
  function EditDataSafe(c: ContentItem): FormFields {
    FormFields(
      DecodeEntities(EscapeAttrSafe(c.teacher_id)),
      DecodeEntities(EscapeAttrSafe(c.class_name)),
      DecodeEntities(EscapeAttrSafe(FieldOr(c.subject))),
      DecodeEntities(EscapeAttrSafe(c.content_type)),
      DecodeEntities(EscapeAttrSafe(c.title)),
      DecodeEntities(EscapeAttrSafe(FieldOr(c.description))),
      Join(AttachmentsFromDataset(DecodeEntities(EscapeAttrSafe(Join(c.attachment_urls, ',')))), ','))
  }

  /** The body built from the form. */
  function Body(f: FormFields): ContentData {
    ContentData(f.teacher_id, f.class_name, f.subject, f.content_type, f.title, f.description,
      AttachmentsFromField(f.attachment_urls))
  }

  /** Opening an item for editing and saving it unchanged sends the item's own fields
      (absent subject and description as empty text), with the escaping corrected. */
  lemma EditRoundTrip(c: ContentItem)
    requires forall k :: 0 <= k < |c.attachment_urls| ==> PlainUrl(c.attachment_urls[k])
    ensures Body(EditDataSafe(c)) == ContentData(c.teacher_id, c.class_name, FieldOr(c.subject),
      c.content_type, c.title, FieldOr(c.description), c.attachment_urls)
  {
    EscapeAttrSafeRoundTrip(c.teacher_id);
    EscapeAttrSafeRoundTrip(c.class_name);
    EscapeAttrSafeRoundTrip(FieldOr(c.subject));
    EscapeAttrSafeRoundTrip(c.content_type);
    EscapeAttrSafeRoundTrip(c.title);
    EscapeAttrSafeRoundTrip(FieldOr(c.description));
    EscapeAttrSafeRoundTrip(Join(c.attachment_urls, ','));
    DatasetRoundTrip(c.attachment_urls);
    FieldRoundTrip(c.attachment_urls);
  }

  /** No field of the item holds an `&`. */
  predicate NoAmpersand(c: ContentItem) {
    '&' !in c.teacher_id && '&' !in c.class_name && '&' !in FieldOr(c.subject)
    && '&' !in c.content_type && '&' !in c.title && '&' !in FieldOr(c.description)
    && '&' !in Join(c.attachment_urls, ',')
  }

  /** The escaping as written agrees with the corrected one on items without `&`. */
  lemma EditDataAgrees(c: ContentItem)
    requires NoAmpersand(c)
    ensures EditData(c) == EditDataSafe(c)
  {
  }

  /** So, as written, the edit round trip holds for items without `&`. */
  lemma EditRoundTripAsWritten(c: ContentItem)
    requires NoAmpersand(c)
    requires forall k :: 0 <= k < |c.attachment_urls| ==> PlainUrl(c.attachment_urls[k])
    ensures Body(EditData(c)) == ContentData(c.teacher_id, c.class_name, FieldOr(c.subject),
      c.content_type, c.title, FieldOr(c.description), c.attachment_urls)
  {
    EditDataAgrees(c);
    EditRoundTrip(c);
  }

  /** With the escaping as written, an item titled `&quot;` comes back from the edit
      button titled `"`, and saving it unchanged renames it. */
  lemma EditAsWrittenLosesText(c: ContentItem)
    requires c.title == "&quot;"
    ensures EditData(c).title != c.title
    ensures Body(EditData(c)).title != c.title
  {
    EscapeAttrLosesText();
  }

  /** The page's dialog state: the add/edit dialog and the delete confirmation. */
  class PageState {
    var editContentId: string
    var deleteContentId: string
    var modalOpen: bool
    var deleteModalOpen: bool
    var modalTitle: string
    var form: FormFields

    /** An item is being edited only while the add/edit dialog is open. */
    ghost predicate Valid()
      reads this
    {
      editContentId != "" ==> modalOpen
    }

    constructor ()
      ensures Valid()
      ensures editContentId == "" && deleteContentId == "" && !modalOpen && !deleteModalOpen
    {
      editContentId := "";
      deleteContentId := "";
      modalOpen := false;
      deleteModalOpen := false;
      modalTitle := "";
      form := EmptyForm;
    }

    /** `openModal(content)`: editing fills the form, adding resets it. */
    method OpenModal(content: Option<FormFields>)
      modifies this
      ensures Valid() && modalOpen
      ensures content.Some? ==> modalTitle == "Edit Content" && form == content.value
      ensures content.None? ==> modalTitle == "Add New Content" && form == EmptyForm
      ensures editContentId == old(editContentId) && deleteContentId == old(deleteContentId)
      ensures deleteModalOpen == old(deleteModalOpen)
    {
      modalOpen := true;
      if content.Some? {
        modalTitle := "Edit Content";
        form := content.value;
      } else {
        modalTitle := "Add New Content";
        form := EmptyForm;
      }
    }

    /** `closeModal`: the dialog closes and no item is being edited any more. */
    method CloseModal()
      modifies this
      ensures Valid() && !modalOpen && editContentId == ""
      ensures deleteContentId == old(deleteContentId) && deleteModalOpen == old(deleteModalOpen)
      ensures form == old(form) && modalTitle == old(modalTitle)
    {
      modalOpen := false;
      editContentId := "";
    }

    /** The edit button: the item's id is remembered and the dialog opens with its data. */
    method EditContent(id: string, c: ContentItem)
      modifies this
      ensures Valid() && modalOpen && editContentId == id && form == EditData(c)
      ensures modalTitle == "Edit Content"
      ensures deleteContentId == old(deleteContentId) && deleteModalOpen == old(deleteModalOpen)
    {
      editContentId := id;
      OpenModal(Some(EditData(c)));
    }

    /** Submitting the form: a PUT for the item being edited, otherwise a POST; an
        edit is only ever sent from the open dialog. When the server accepts it
        (`ok`), the dialog closes. */
    method Submit(ok: bool) returns (request: Request)
      requires Valid()
      modifies this
      ensures Valid()
      ensures old(editContentId) != "" ==> request == Put(old(editContentId), Body(old(form)))
      ensures old(editContentId) == "" ==> request == Post(Body(old(form)))
      ensures request.Put? ==> old(modalOpen)
      ensures ok ==> !modalOpen && editContentId == ""
      ensures !ok ==> modalOpen == old(modalOpen) && editContentId == old(editContentId)
      ensures deleteContentId == old(deleteContentId) && deleteModalOpen == old(deleteModalOpen)
      ensures form == old(form)
    {
      if editContentId != "" {
        request := Put(editContentId, Body(form));
      } else {
        request := Post(Body(form));
      }
      if ok {
        CloseModal();
      }
    }

    /** The delete button: the item's id is remembered and the confirmation opens. */
    method OpenDeleteModal(id: string)
      requires Valid()
      modifies this
      ensures Valid() && deleteContentId == id && deleteModalOpen
      ensures editContentId == old(editContentId) && modalOpen == old(modalOpen) && form == old(form)
    {
      deleteContentId := id;
      deleteModalOpen := true;
    }

    /** Cancel: the confirmation closes and no item is marked for deletion. */
    method CancelDelete()
      requires Valid()
      modifies this
      ensures Valid() && !deleteModalOpen && deleteContentId == ""
      ensures editContentId == old(editContentId) && modalOpen == old(modalOpen) && form == old(form)
    {
      deleteModalOpen := false;
      deleteContentId := "";
    }

    /** Confirm: nothing happens when no item is marked; otherwise a DELETE is sent, and
        when the server accepts it the confirmation closes and the mark is cleared. */
    method ConfirmDelete(ok: bool) returns (request: Option<Request>)
      requires Valid()
      modifies this
      ensures Valid()
      ensures old(deleteContentId) == "" ==>
        request.None? && deleteContentId == old(deleteContentId) && deleteModalOpen == old(deleteModalOpen)
      ensures old(deleteContentId) != "" ==> request == Some(Delete(old(deleteContentId)))
      ensures old(deleteContentId) != "" && ok ==> !deleteModalOpen && deleteContentId == ""
      ensures old(deleteContentId) != "" && !ok ==>
        deleteModalOpen == old(deleteModalOpen) && deleteContentId == old(deleteContentId)
      ensures editContentId == old(editContentId) && modalOpen == old(modalOpen) && form == old(form)
    {
      if deleteContentId == "" {
        return None;
      }
      request := Some(Delete(deleteContentId));
      if ok {
        deleteModalOpen := false;
        deleteContentId := "";
      }
    }

    /** A click on a dialog's backdrop: the add/edit dialog closes as with its close
        button; the delete confirmation is only hidden, and the marked id stays. */
    method WindowClick(target: ClickTarget)
      requires Valid()
      modifies this
      ensures Valid()
      ensures target == ContentModalBackdrop ==> !modalOpen && editContentId == ""
      ensures target != ContentModalBackdrop ==> modalOpen == old(modalOpen) && editContentId == old(editContentId)
      ensures target == DeleteModalBackdrop ==> !deleteModalOpen
      ensures target != DeleteModalBackdrop ==> deleteModalOpen == old(deleteModalOpen)
      ensures deleteContentId == old(deleteContentId) && form == old(form)
    {
      if target == ContentModalBackdrop {
        CloseModal();
      }
      if target == DeleteModalBackdrop {
        deleteModalOpen := false;
      }
    }
  }
}

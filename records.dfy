/** The school content record and the teacher profile. Content travels between the
    backend and the pages as JSON, so the date is held in its ISO text form, as the
    encoder produces it from the stored `date`. */
module Records {
  import opened Common
  import opened Text
  import opened Dates

  /** One piece of school content (homework, notes, an announcement, an assignment).
      `content_id`, `subject` and `description` may be absent. */
  datatype ContentItem = ContentItem(
    content_id: Option<int>,
    teacher_id: string,
    class_name: string,
    subject: Option<string>,
    date_uploaded: string,
    content_type: string,
    title: string,
    description: Option<string>,
    attachment_urls: seq<string>)

  /** A teacher: four required text fields and nothing else. */
  datatype TeacherProfile = TeacherProfile(
    teacher_id: string,
    name: string,
    subject_specialization: string,
    department: string)

  /** Building a `SchoolContent` with only the required fields given explicitly: the
      identifier, subject and description default to absent, the attachment list to
      empty, and the upload date to `today` (the clock is a parameter). Optional
      arguments that are passed override the defaults. */
  function NewSchoolContent(
    teacher_id: string, class_name: string, content_type: string, title: string, today: Date,
    subject: Option<string> := None, description: Option<string> := None,
    attachment_urls: seq<string> := [], content_id: Option<int> := None,
    date_uploaded: Option<Date> := None): (c: ContentItem)
    requires Valid(today)
    requires date_uploaded.Some? ==> Valid(date_uploaded.value)
    ensures c.teacher_id == teacher_id && c.class_name == class_name
    ensures c.content_type == content_type && c.title == title
    ensures c.subject == subject && c.description == description
    ensures c.content_id == content_id && c.attachment_urls == attachment_urls
    ensures ParseIso(c.date_uploaded) == Some(if date_uploaded.Some? then date_uploaded.value else today)
  {
    var d := if date_uploaded.Some? then date_uploaded.value else today;
    ParseIsoRoundTrip(d);
    ContentItem(content_id, teacher_id, class_name, subject, Iso(d), content_type, title, description, attachment_urls)
  }

  /** With only the required fields, the record takes every default. */
  lemma SchoolContentDefaults(teacher_id: string, class_name: string, content_type: string, title: string, today: Date)
    requires Valid(today)
    ensures var c := NewSchoolContent(teacher_id, class_name, content_type, title, today);
      c.content_id.None? && c.subject.None? && c.description.None? && c.attachment_urls == []
      && ParseIso(c.date_uploaded) == Some(today)
  {
  }

  /** The body the chat assistants POST to create content. */
  datatype NewContentRequest = NewContentRequest(
    teacher_id: string,
    class_name: string,
    subject: string,
    content_type: string,
    title: string,
    description: string)

  /** The content-kind tests the pages apply: homework, announcements and assignments
      by exact lowercased type, notes by the substring "note" of the lowercased type. */
  predicate IsHomework(c: ContentItem) { Lower(c.content_type) == "homework" }
  predicate IsNote(c: ContentItem) { Contains(Lower(c.content_type), "note") }
  predicate IsAnnouncement(c: ContentItem) { Lower(c.content_type) == "announcement" }
  predicate IsAssignment(c: ContentItem) { Lower(c.content_type) == "assignment" }

  function HomeworkPred(): ContentItem -> bool { c => IsHomework(c) }
  function NotePred(): ContentItem -> bool { c => IsNote(c) }
  function AnnouncementPred(): ContentItem -> bool { c => IsAnnouncement(c) }
  function AssignmentPred(): ContentItem -> bool { c => IsAssignment(c) }

  /** The exact kinds exclude each other, and none of them is a note kind. */
  lemma KindsDisjoint(c: ContentItem)
    ensures !(IsHomework(c) && IsAnnouncement(c)) && !(IsHomework(c) && IsAssignment(c))
    ensures !(IsAnnouncement(c) && IsAssignment(c))
    ensures !(IsHomework(c) && IsNote(c)) && !(IsAnnouncement(c) && IsNote(c)) && !(IsAssignment(c) && IsNote(c))
  {
    if IsHomework(c) { NoNoteIn("homework"); }
    if IsAnnouncement(c) { NoNoteIn("announcement"); }
    if IsAssignment(c) { NoNoteIn("assignment"); }
  }

  lemma NoNoteIn(s: string)
    requires s == "homework" || s == "announcement" || s == "assignment"
    ensures !Contains(s, "note")
  {
    if Contains(s, "note") {
      var i: nat :| i <= |s| && OccursAt(s, "note", i);
      NoteAt(s, i);
      assert false;
    }
  }

  lemma NoteAt(s: string, i: nat)
    requires OccursAt(s, "note", i)
    ensures i + 4 <= |s| && s[i + 2] == 't'
  {
    assert s[i..i + 4][2] == s[i + 2];
  }
}

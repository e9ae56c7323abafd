/** The content table behind the backend service, reduced to what the agent tools
    observe: rows with auto-increment identifiers, an update that reports the
    updated row or nothing when the identifier is unknown, and a delete that
    reports whether a row went away. SQL, connections and JSON columns are not
    modelled. */
module Store {
  import opened Common
  import opened Records

  predicate HasId(c: ContentItem, id: int) {
    c.content_id == Some(id)
  }

  function HasIdPred(id: int): ContentItem -> bool {
    c => HasId(c, id)
  }

  function NotIdPred(id: int): ContentItem -> bool {
    c => !HasId(c, id)
  }

  class ContentStore {
    var rows: seq<ContentItem>
    var nextId: int

    /** Every row has an identifier below `nextId`, and identifiers are distinct. */
    ghost predicate Valid()
      reads this
    {
      nextId >= 1
      && (forall i :: 0 <= i < |rows| ==> rows[i].content_id.Some? && rows[i].content_id.value < nextId)
      && (forall i, j :: 0 <= i < j < |rows| ==> rows[i].content_id != rows[j].content_id)
    }

    constructor ()
      ensures Valid() && rows == [] && nextId == 1
    {
      rows := [];
      nextId := 1;
    }

    /** Insert: the row receives the next identifier and is appended. */
    method Create(c: ContentItem) returns (created: ContentItem)
      requires Valid()
      modifies this
      ensures Valid()
      ensures created == c.(content_id := Some(old(nextId)))
      ensures rows == old(rows) + [created] && nextId == old(nextId) + 1
    {
      created := c.(content_id := Some(nextId));
      rows := rows + [created];
      nextId := nextId + 1;
    }

    /** Update of the title field: None when no row has the identifier; otherwise
        that row, and only that row, gets the new title. */
    method UpdateTitle(id: int, newTitle: string) returns (updated: Option<ContentItem>)
      requires Valid()
      modifies this
      ensures Valid() && nextId == old(nextId)
      ensures updated.None? <==> (forall i :: 0 <= i < |old(rows)| ==> !HasId(old(rows)[i], id))
      ensures updated.None? ==> rows == old(rows)
      ensures updated.Some? ==>
        (exists i :: 0 <= i < |old(rows)| && HasId(old(rows)[i], id)
          && updated.value == old(rows)[i].(title := newTitle) && rows == old(rows)[i := updated.value])
    {
      match FirstIndex(rows, HasIdPred(id))
      case None =>
        updated := None;
      case Some(i) =>
        var u := rows[i].(title := newTitle);
        rows := rows[i := u];
        updated := Some(u);
    }

    /** Delete: reports whether a row with the identifier existed, and removes it. */
    method Delete(id: int) returns (deleted: bool)
      requires Valid()
      modifies this
      ensures Valid() && nextId == old(nextId)
      ensures deleted <==> exists i :: 0 <= i < |old(rows)| && HasId(old(rows)[i], id)
      ensures rows == Filter(old(rows), NotIdPred(id))
    {
      deleted := FirstIndex(rows, HasIdPred(id)).Some?;
      var kept := Filter(rows, NotIdPred(id));
      FilterIsSubseq(rows, NotIdPred(id));
      SubseqKeepsValid(kept, rows, nextId);
      rows := kept;
    }
  }

  /** The two conditions of `Valid` on a plain sequence. */
  ghost predicate RowsValid(s: seq<ContentItem>, next: int) {
    (forall i :: 0 <= i < |s| ==> s[i].content_id.Some? && s[i].content_id.value < next)
    && (forall i, j :: 0 <= i < j < |s| ==> s[i].content_id != s[j].content_id)
  }

  /** Deleting rows keeps identifiers bounded and distinct. */
  lemma {:induction false} SubseqKeepsValid(a: seq<ContentItem>, b: seq<ContentItem>, next: int)
    requires IsSubseq(a, b) && RowsValid(b, next)
    ensures RowsValid(a, next)
    decreases |b|
  {
    if b != [] {
      var b' := b[..|b| - 1];
      assert RowsValid(b', next);
      if a != [] && a[|a| - 1] == b[|b| - 1] && IsSubseq(a[..|a| - 1], b') {
        var a' := a[..|a| - 1];
        SubseqKeepsValid(a', b', next);
        SubseqMembers(a', b');
        forall i | 0 <= i < |a'|
          ensures a'[i].content_id != a[|a| - 1].content_id
        {
          var k :| 0 <= k < |b'| && b'[k] == a'[i];
        }
      } else {
        SubseqKeepsValid(a, b', next);
      }
    }
  }
}

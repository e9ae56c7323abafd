/** The regular expressions the chat assistants apply to a lowercased query, each
    written out as a matcher at one position plus the leftmost search that
    `RegExp.prototype.test` and `String.prototype.match` perform. Backtracking is
    resolved by hand: each matcher states which shorter repetition can still
    succeed when the greedy one fails. The query is already lowercased, so the
    case-insensitive flag has nothing left to do on ASCII letters. */
module Patterns {
  import opened Common
  import opened Text

  /** The length of the longest run of characters satisfying `p` starting at `i`. */
  function RunLen(s: string, i: nat, p: char -> bool): (n: nat)
    ensures i <= |s| ==> i + n <= |s|
    ensures forall k :: i <= k < i + n ==> k < |s| && p(s[k])
    ensures i + n < |s| ==> !p(s[i + n])
    decreases |s| - i
  {
    if i < |s| && p(s[i]) then 1 + RunLen(s, i + 1, p) else 0
  }

  /** `[\s:]`: JavaScript white space or a colon. */
  predicate IsSpaceOrColon(c: char) { IsJsSpace(c) || c == ':' }

  predicate IsQuote(c: char) { c == '"' || c == '\'' }

  /** `[^,"']` */
  predicate IsTitleChar(c: char) { c != ',' && !IsQuote(c) }

  function SpaceOrColon(): char -> bool { c => IsSpaceOrColon(c) }
  function Alnum(): char -> bool { c => IsAsciiAlnum(c) }
  function TitleChar(): char -> bool { c => IsTitleChar(c) }
  function NotDoubleQuote(): char -> bool { c => c != '"' }
  function NotQuote(): char -> bool { c => !IsQuote(c) }

  /** The patterns of the upload branch. */
  datatype Pattern =
    | TeacherId      // /teacher[\s:]+([a-zA-Z0-9]+)/i
    | TitleLabel     // /title[\s:]+([^,]+)/i, used only as a test
    | DoubleQuoted   // /"([^"]+)"/i, used only as a test
    | TitleCapture   // /title[\s:]+["']?([^,"']+)["']?/i
    | AnyQuoted      // /["']([^"']+)["']/i

  /** `/teacher[\s:]+([a-zA-Z0-9]+)/` at `i`. A shorter separator run leaves a
      separator next, which is not alphanumeric, so only the greedy run can match. */
  function TeacherAt(q: string, i: nat): Option<string>
    requires i <= |q|
  {
    if !OccursAt(q, "teacher", i) then None
    else
      var r := RunLen(q, i + 7, SpaceOrColon());
      var k := i + 7 + r;
      var n := RunLen(q, k, Alnum());
      if r >= 1 && n >= 1 then Some(q[k..k + n]) else None
  }

  /** `/title[\s:]+([^,]+)/` at `i`. With a comma (or the end) after the separators,
      giving one separator back to `[^,]+` still matches. */
  function TitleLabelAt(q: string, i: nat): Option<string>
    requires i <= |q|
  {
    if !OccursAt(q, "title", i) then None
    else
      var r := RunLen(q, i + 5, SpaceOrColon());
      var k := i + 5 + r;
      if r >= 1 && k < |q| && q[k] != ',' then Some(q[k..k + RunLen(q, k, c => c != ',')])
      else if r >= 2 then Some(q[k - 1..k])
      else None
  }

  /** `/"([^"]+)"/` at `i`. */
  function DoubleQuotedAt(q: string, i: nat): Option<string>
    requires i <= |q|
  {
    if i < |q| && q[i] == '"' then
      var n := RunLen(q, i + 1, NotDoubleQuote());
      if n >= 1 && i + 1 + n < |q| then Some(q[i + 1..i + 1 + n]) else None
    else None
  }

  /** `/title[\s:]+["']?([^,"']+)["']?/` at `i`. */
  function TitleCaptureAt(q: string, i: nat): Option<string>
    requires i <= |q|
  {
    if !OccursAt(q, "title", i) then None
    else
      var r := RunLen(q, i + 5, SpaceOrColon());
      TitleAfter(q, i + 5 + r, r)
  }

  /** The rest of the title capture once `r` separators end at `k`. When neither an
      opening quote followed by title characters nor title characters directly follow
      the separators, the separator run gives back its last character, which is then
      the whole capture. */
  function TitleAfter(q: string, k: nat, r: nat): Option<string>
    requires r <= k <= |q|
  {
    if r == 0 then None
    else if k < |q| && IsQuote(q[k]) && RunLen(q, k + 1, TitleChar()) >= 1 then
      Some(q[k + 1..k + 1 + RunLen(q, k + 1, TitleChar())])
    else if !(k < |q| && IsQuote(q[k])) && RunLen(q, k, TitleChar()) >= 1 then
      Some(q[k..k + RunLen(q, k, TitleChar())])
    else if r >= 2 then Some(q[k - 1..k])
    else None
  }

  /** `/["']([^"']+)["']/` at `i`. */
  function AnyQuotedAt(q: string, i: nat): Option<string>
    requires i <= |q|
  {
    if i < |q| && IsQuote(q[i]) then
      var n := RunLen(q, i + 1, NotQuote());
      if n >= 1 && i + 1 + n < |q| then Some(q[i + 1..i + 1 + n]) else None
    else None
  }

  /** The match of `pat` that starts exactly at `i`, as its first capture group. */
  function MatchAt(pat: Pattern, q: string, i: nat): Option<string>
    requires i <= |q|
  {
    match pat
    case TeacherId => TeacherAt(q, i)
    case TitleLabel => TitleLabelAt(q, i)
    case DoubleQuoted => DoubleQuotedAt(q, i)
    case TitleCapture => TitleCaptureAt(q, i)
    case AnyQuoted => AnyQuotedAt(q, i)
  }

  /** The leftmost match at or after position `from`. */
  function SearchFrom(pat: Pattern, q: string, from: nat): (r: Option<string>)
    requires from <= |q|
    decreases |q| - from
  {
    if MatchAt(pat, q, from).Some? then MatchAt(pat, q, from)
    else if from == |q| then None
    else SearchFrom(pat, q, from + 1)
  }

  /** `q.match(pat)`: the first capture of the leftmost match, if any. */
  function Search(pat: Pattern, q: string): Option<string> {
    SearchFrom(pat, q, 0)
  }

  /** The leftmost match of `pat` starts at `i`: no earlier position matches. */
  predicate LeftmostAt(pat: Pattern, q: string, i: nat)
    requires i <= |q|
  {
    MatchAt(pat, q, i).Some? && forall j :: 0 <= j < i ==> MatchAt(pat, q, j).None?
  }

  /** No position from `from` up to (not including) `i` matches. */
  predicate NoMatchBetween(pat: Pattern, q: string, from: nat, i: nat)
    requires i <= |q|
  {
    forall j :: from <= j < i ==> MatchAt(pat, q, j).None?
  }

  /** A successful search from `from` returned the match at the first matching
      position at or after `from`. */
  lemma {:induction false} SearchFromHit(pat: Pattern, q: string, from: nat) returns (i: nat)
    requires from <= |q| && SearchFrom(pat, q, from).Some?
    ensures from <= i <= |q| && SearchFrom(pat, q, from) == MatchAt(pat, q, i)
    ensures NoMatchBetween(pat, q, from, i)
    decreases |q| - from
  {
    if MatchAt(pat, q, from).Some? {
      i := from;
    } else {
      i := SearchFromHit(pat, q, from + 1);
    }
  }

  /** A failed search from `from` means no position at or after `from` matches. */
  lemma {:induction false} SearchFromMiss(pat: Pattern, q: string, from: nat)
    requires from <= |q| && SearchFrom(pat, q, from).None?
    ensures forall i :: from <= i <= |q| ==> MatchAt(pat, q, i).None?
    decreases |q| - from
  {
    if from < |q| {
      SearchFromMiss(pat, q, from + 1);
    }
  }

  /** A search succeeds exactly when some position matches, and it returns the match
      at the leftmost such position. */
  lemma SearchLeftmost(pat: Pattern, q: string)
    ensures Search(pat, q).None? <==> forall i :: 0 <= i <= |q| ==> MatchAt(pat, q, i).None?
    ensures Search(pat, q).Some? ==>
      exists i :: 0 <= i <= |q| && LeftmostAt(pat, q, i) && Search(pat, q) == MatchAt(pat, q, i)
  {
    if Search(pat, q).Some? {
      var i := SearchHit(pat, q);
    } else {
      SearchFromMiss(pat, q, 0);
    }
  }

  /** The position where a successful search matched. */
  lemma SearchHit(pat: Pattern, q: string) returns (i: nat)
    requires Search(pat, q).Some?
    ensures i <= |q| && Search(pat, q) == MatchAt(pat, q, i) && LeftmostAt(pat, q, i)
  {
    i := SearchFromHit(pat, q, 0);
  }

  /** The teacher identifier is a non-empty run of letters and digits that follows
      "teacher" and at least one separator in the query. */
  lemma TeacherIdShape(q: string)
    requires Search(TeacherId, q).Some?
    ensures var id := Search(TeacherId, q).value;
      |id| >= 1 && (forall k :: 0 <= k < |id| ==> IsAsciiAlnum(id[k])) && Contains(q, id)
      && Contains(q, "teacher")
  {
    var i := SearchHit(TeacherId, q);
    TeacherAtShape(q, i);
  }

  lemma TeacherAtShape(q: string, i: nat)
    requires i <= |q| && TeacherAt(q, i).Some?
    ensures var id := TeacherAt(q, i).value;
      |id| >= 1 && (forall k :: 0 <= k < |id| ==> IsAsciiAlnum(id[k])) && Contains(q, id)
      && Contains(q, "teacher")
  {
    var k := i + 7 + RunLen(q, i + 7, SpaceOrColon());
    RunPiece(q, k, Alnum());
  }

  /** The run found by `RunLen` is a piece of the string made of characters satisfying `p`. */
  lemma RunPiece(q: string, k: nat, p: char -> bool)
    requires k <= |q|
    ensures var t := q[k..k + RunLen(q, k, p)];
      (forall j :: 0 <= j < |t| ==> p(t[j])) && Contains(q, t)
  {
    var t := q[k..k + RunLen(q, k, p)];
    assert forall j :: 0 <= j < |t| ==> t[j] == q[k + j];
    assert OccursAt(q, t, k);
  }

  /** A run of title characters is a piece of the string. */
  lemma TitleRunShape(q: string, k: nat)
    requires k <= |q|
    ensures var t := q[k..k + RunLen(q, k, TitleChar())];
      Contains(q, t) && forall j :: 0 <= j < |t| ==> IsTitleChar(t[j])
  {
    RunPiece(q, k, TitleChar());
  }

  /** When the separators are followed by neither kind of title, the last separator
      is the capture. */
  lemma TitleSeparatorShape(q: string, k: nat)
    requires 1 <= k <= |q| && IsSpaceOrColon(q[k - 1])
    ensures var t := q[k - 1..k]; Contains(q, t) && forall j :: 0 <= j < |t| ==> IsTitleChar(t[j])
  {
    assert OccursAt(q, q[k - 1..k], k - 1);
  }

  lemma TitleAfterShape(q: string, k: nat, r: nat)
    requires r <= k <= |q| && TitleAfter(q, k, r).Some? && IsSpaceOrColon(q[k - 1])
    ensures var t := TitleAfter(q, k, r).value;
      Contains(q, t) && forall j :: 0 <= j < |t| ==> IsTitleChar(t[j])
  {
    if k < |q| && IsQuote(q[k]) && RunLen(q, k + 1, TitleChar()) >= 1 {
      TitleRunShape(q, k + 1);
    } else if !(k < |q| && IsQuote(q[k])) && RunLen(q, k, TitleChar()) >= 1 {
      TitleRunShape(q, k);
    } else {
      TitleSeparatorShape(q, k);
    }
  }

  lemma TitleCaptureAtShape(q: string, i: nat)
    requires i <= |q| && TitleCaptureAt(q, i).Some?
    ensures var t := TitleCaptureAt(q, i).value;
      Contains(q, t) && forall k :: 0 <= k < |t| ==> IsTitleChar(t[k])
  {
    var r := RunLen(q, i + 5, SpaceOrColon());
    assert SpaceOrColon()(q[i + 5 + r - 1]);
    TitleAfterShape(q, i + 5 + r, r);
  }

  /** A labelled title never contains a comma or a quote, and is a piece of the query. */
  lemma TitleCaptureShape(q: string)
    requires Search(TitleCapture, q).Some?
    ensures var t := Search(TitleCapture, q).value;
      Contains(q, t) && forall k :: 0 <= k < |t| ==> IsTitleChar(t[k])
  {
    var i := SearchHit(TitleCapture, q);
    TitleCaptureAtShape(q, i);
  }

  /** A quoted title is non-empty, has no quote in it, and is a piece of the query. */
  lemma AnyQuotedShape(q: string)
    requires Search(AnyQuoted, q).Some?
    ensures var t := Search(AnyQuoted, q).value;
      |t| >= 1 && Contains(q, t) && forall k :: 0 <= k < |t| ==> !IsQuote(t[k])
  {
    var i := SearchHit(AnyQuoted, q);
    assert OccursAt(q, Search(AnyQuoted, q).value, i + 1);
  }

  /** Wherever the title capture matches, the looser title test matches too. */
  lemma TitleCaptureImpliesLabel(q: string, i: nat)
    requires i <= |q| && TitleCaptureAt(q, i).Some?
    ensures TitleLabelAt(q, i).Some?
  {
  }

  /** `/^(hi+|hello|hey)$/`: the whole text is "hello", "hey", or "h" followed by one or
      more "i". */
  predicate IsShortGreeting(q: string) {
    q == "hello" || q == "hey"
    || (|q| >= 2 && q[0] == 'h' && forall k :: 1 <= k < |q| ==> q[k] == 'i')
  }

  /** The older assistant's `/^(hi+|hello|hey|good morning|good afternoon)$/`. */
  predicate IsGreeting(q: string) {
    IsShortGreeting(q) || q == "good morning" || q == "good afternoon"
  }
}

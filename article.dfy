/** The plugin's pure rules about an article: whether an entered id may be
    fetched and from which URL, and where the fetched note is created. */
module Article {
  import opened Wrappers
  import opened JsText

  /** Every article is fetched from this prefix followed by its id. */
  const PostUrlPrefix: string := "https://juejin.cn/post/"

  /** Pressing submit with the id field's current value (None while the field
      was never typed into). None: the plugin shows a notice and makes no
      request. Some(url): the one GET it issues. The id goes into the URL as
      typed, not trimmed. */
  function SubmitRequest(articleId: Option<string>): (r: Option<string>)
    ensures r.None? <==> articleId.None? || AllSpace(articleId.value)
    ensures r.Some? ==> |r.value| > |PostUrlPrefix|
                        && r.value[..|PostUrlPrefix|] == PostUrlPrefix
                        && r.value[|PostUrlPrefix|..] == articleId.value
  {
    match articleId
    case None => None
    case Some(id) =>
      TrimEmptyIff(id);
      if Trim(id) == [] then None else Some(PostUrlPrefix + id)
  }

  /** Distinct ids are fetched from distinct URLs. */
  lemma SubmitRequestInjective(x: string, y: string)
    requires SubmitRequest(Some(x)).Some? && SubmitRequest(Some(x)) == SubmitRequest(Some(y))
    ensures x == y
  {
  }

  /** The URL carries the id as typed: the check trims, the URL does not. */
  lemma SubmitKeepsUntrimmedId(id: string)
    requires !AllSpace(id)
    ensures SubmitRequest(Some(id)) == Some(PostUrlPrefix + id)
  {
    var url := SubmitRequest(Some(id)).value;
    assert url == url[..|PostUrlPrefix|] + url[|PostUrlPrefix|..];
  }

  /** The characters the title pattern `[*"\\/<>:|?]` matches. */
  predicate IsForbidden(c: char)
  {
    c == '*' || c == '"' || c == '\\' || c == '/' || c == '<' || c == '>'
    || c == ':' || c == '|' || c == '?'
  }

  /** A global replace of every forbidden character by one space. */
  function ReplaceForbidden(s: string): (r: string)
    ensures |r| == |s|
    ensures forall i :: 0 <= i < |s| ==> r[i] == if IsForbidden(s[i]) then ' ' else s[i]
  {
    if s == [] then []
    else [if IsForbidden(s[0]) then ' ' else s[0]] + ReplaceForbidden(s[1..])
  }

  /** The note's file name without its extension: the trimmed title with each
      forbidden character replaced by a space. Same length as the trimmed
      title, free of forbidden characters, and equal to it wherever it had
      an allowed character. */
  function SanitizedTitle(title: string): (r: string)
    ensures |r| == |Trim(title)|
    ensures forall i :: 0 <= i < |r| ==> r[i] == if IsForbidden(Trim(title)[i]) then ' ' else Trim(title)[i]
    ensures forall i :: 0 <= i < |r| ==> !IsForbidden(r[i])
  {
    ReplaceForbidden(Trim(title))
  }

  /** Replacing once leaves nothing for a second replace to change. */
  lemma {:induction false} ReplaceForbiddenIdempotent(s: string)
    ensures ReplaceForbidden(ReplaceForbidden(s)) == ReplaceForbidden(s)
  {
    if s != [] {
      ReplaceForbiddenIdempotent(s[1..]);
    }
  }

  /** Sanitizing the whole title is not idempotent: a forbidden first
      character leaves a leading space, which a second pass trims away
      ("*a" gives " a", which gives "a"). */
  lemma SanitizedTitleNotIdempotent(c: char)
    requires !IsForbidden(c) && !IsTrimSpace(c)
    ensures SanitizedTitle(['*', c]) == [' ', c]
    ensures SanitizedTitle(SanitizedTitle(['*', c])) == [c]
  {
    var t := ['*', c];
    var once := [' ', c];
    TrimBlankThenChar(once);
    assert once[1..] == [c];
    assert SanitizedTitle(once) == [c] by {
      assert ReplaceForbidden([c]) == [c];
    }
    assert SanitizedTitle(t) == once by {
      assert ReplaceForbidden(t) == once;
      SanitizedUnspaced(t);
    }
  }

  /** A two-character string of a space and then a non-space trims to its second character. */
  lemma TrimBlankThenChar(s: string)
    requires |s| == 2 && IsTrimSpace(s[0]) && !IsTrimSpace(s[1])
    ensures Trim(s) == s[1..]
  {
    var tail := s[1..];
    assert TrimStart(tail) == tail;
    assert TrimStart(s) == tail;
    assert TrimEnd(tail) == tail;
  }

  /** A title with no space at either end is only replaced, not trimmed. */
  lemma SanitizedUnspaced(t: string)
    requires t == [] || (!IsTrimSpace(t[0]) && !IsTrimSpace(t[|t| - 1]))
    ensures SanitizedTitle(t) == ReplaceForbidden(t)
  {
    TrimUnspaced(t);
  }

  /** The path of the note created in `folder`. */
  function NotePath(folder: string, title: string): (r: string)
    ensures |r| == |folder| + 1 + |Trim(title)| + 3
    ensures r[..|folder| + 1] == folder + "/" && r[|r| - 3..] == ".md"
    ensures r[|folder| + 1..|r| - 3] == SanitizedTitle(title)
    ensures forall i :: |folder| < i < |r| ==> r[i] != '/' && r[i] != '\\'
  {
    var name := SanitizedTitle(title);
    assert NoSeparator(name) by {
      assert forall i :: 0 <= i < |name| ==> !IsForbidden(name[i]);
    }
    assert NoSeparator(".md");
    JoinInFolder(folder, name, ".md");
    folder + "/" + name + ".md"
  }

  /** No character of `s` is a path separator. */
  predicate NoSeparator(s: string)
  {
    forall i :: 0 <= i < |s| ==> s[i] != '/' && s[i] != '\\'
  }

  /** Joining a folder, `/`, a name and an extension: each part can be read
      back, and no separator follows the folder when neither part has one. */
  lemma JoinInFolder(folder: string, name: string, ext: string)
    requires NoSeparator(name) && NoSeparator(ext)
    ensures var r := folder + "/" + name + ext;
            |r| == |folder| + 1 + |name| + |ext|
            && r[..|folder| + 1] == folder + "/" && r[|r| - |ext|..] == ext
            && r[|folder| + 1..|r| - |ext|] == name
            && forall i :: |folder| < i < |r| ==> r[i] != '/' && r[i] != '\\'
  {
    var r := folder + "/" + name + ext;
    assert forall i :: |folder| < i < |folder| + 1 + |name| ==> r[i] == name[i - |folder| - 1];
    assert forall i :: |r| - |ext| <= i < |r| ==> r[i] == ext[i - (|r| - |ext|)];
  }

  /** A page without a title element yields a note named ".md", not an error. */
  lemma MissingTitleNote(folder: string)
    ensures NotePath(folder, "") == folder + "/.md"
  {
  }

  /** Trimming comes before replacing: a title that starts with a forbidden
      character keeps a leading space in its file name. */
  lemma LeadingForbiddenKeepsSpace(folder: string, title: string)
    requires Trim(title) != [] && IsForbidden(Trim(title)[0])
    ensures NotePath(folder, title)[|folder| + 1] == ' '
  {
    var name := SanitizedTitle(title);
    assert NotePath(folder, title) == folder + "/" + name + ".md";
    assert (folder + "/" + name + ".md")[|folder| + 1] == name[0];
  }

  /** Each forbidden character becomes exactly one space: "A/B:C" gives
      "A B C". */
  lemma SanitizedTitleExample(a: char, b: char, c: char)
    requires !IsForbidden(a) && !IsForbidden(b) && !IsForbidden(c)
    requires !IsTrimSpace(a) && !IsTrimSpace(c)
    ensures SanitizedTitle([a, '/', b, ':', c]) == [a, ' ', b, ' ', c]
  {
    var t := [a, '/', b, ':', c];
    var r := ReplaceForbidden(t);
    assert r == [a, ' ', b, ' ', c];
    assert SanitizedTitle(t) == r by { SanitizedUnspaced(t); }
  }

  /** Space and line breaks around a title do not reach its file name. */
  lemma SanitizedTitleIgnoresOuterSpace(pre: string, title: string, post: string)
    requires AllSpace(pre) && AllSpace(post)
    ensures SanitizedTitle(pre + title + post) == SanitizedTitle(title)
  {
    TrimSkipsOuterSpace(pre, title, post);
  }
}

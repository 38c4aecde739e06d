/** The modal's two steps: the submit handler, which checks the id and
    fetches the page, and `solveArticle`, which localizes the images and then
    creates the note. */
module Plugin {
  import opened Wrappers
  import opened Article
  import opened Annex

  /** The notice the user sees at the end of a submit. */
  datatype Notice =
    | AskForId            // the id field is empty or blank
    | FetchFailed         // the page request, the image pass or the note creation rejected
    | Saved(note: string) // the note was created at this path

  /** `solveArticle` on a parsed page whose image elements are `a` and whose
      title text is `title`: the image pass first; only if it completes is the
      note created, at the path built from the title. */
  method SolveArticle(a: array<Image>, folder: string, title: string, settings: Settings,
                      served: nat -> bool, uuid: nat -> string)
    returns (note: Option<string>, requests: seq<string>, writes: seq<string>)
    modifies a
    ensures var r := Localize(old(a[..]), settings, served, uuid);
            requests == r.requests && writes == r.writes && a[..] == r.images
            && note == if r.ok then Some(NotePath(folder, title)) else None
  {
    var ok;
    ok, requests, writes := LocalizeImages(a, settings, served, uuid);
    if ok {
      note := Some(NotePath(folder, title));
    } else {
      note := None;
    }
  }

  /** The submit button. A blank or missing id asks for one and requests
      nothing; otherwise the page at the article's URL is requested
      (`pageServed` says whether that succeeds) and, if it arrives, solved.
      Any rejection along the chain ends in the one failure notice. */
  method SubmitArticle(articleId: Option<string>, pageServed: bool, a: array<Image>, folder: string,
                       title: string, settings: Settings, served: nat -> bool, uuid: nat -> string)
    returns (pageRequest: Option<string>, notice: Notice, imageRequests: seq<string>, writes: seq<string>)
    modifies a
    ensures pageRequest == SubmitRequest(articleId)
    ensures pageRequest.None? ==> notice == AskForId
    ensures pageRequest.None? || !pageServed ==>
              imageRequests == [] && writes == [] && a[..] == old(a[..])
    ensures pageRequest.Some? && !pageServed ==> notice == FetchFailed
    ensures pageRequest.Some? && pageServed ==>
              var r := Localize(old(a[..]), settings, served, uuid);
              imageRequests == r.requests && writes == r.writes && a[..] == r.images
              && notice == if r.ok then Saved(NotePath(folder, title)) else FetchFailed
  {
    pageRequest := SubmitRequest(articleId);
    if pageRequest.None? {
      return pageRequest, AskForId, [], [];
    }
    if !pageServed {
      return pageRequest, FetchFailed, [], [];
    }
    var note;
    note, imageRequests, writes := SolveArticle(a, folder, title, settings, served, uuid);
    notice := if note.Some? then Saved(note.value) else FetchFailed;
  }
}

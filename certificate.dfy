/** The certificate download route: reading a Google Drive file id out of
    the link stored for a user, choosing how the file is served, and the
    route's early answers. The Drive calls and the streaming are not part
    of this model. */
module Certificate {
  import opened Text
  import opened Seqs

  /** The path marker of a `https://drive.google.com/file/d/FILE_ID/...` link. */
  const FileMarker := "/file/d/"

  /** The value part of a `name=value` pair; a pair without `=` has the
      empty value. */
  function PairValue(pair: string): string {
    if Contains(pair, "=") then After(pair, "=") else ""
  }

  predicate PairNamed(pair: string, name: string) {
    Before(pair, "=") == name
  }

  /** `new URLSearchParams(query).get(name)`: the value of the first
      `&`-separated pair called `name`. */
  function QueryParam(query: string, name: string): (r: Option<string>)
    ensures r.Some? <==> exists i :: 0 <= i < |Split(query, "&")| && PairNamed(Split(query, "&")[i], name)
  {
    var pairs := Split(query, "&");
    match FindFirst(pairs, pair => PairNamed(pair, name))
    case None => None
    case Some(k) => Some(PairValue(pairs[k]))
  }

  /** `getFileIdFromUrl`: a missing or empty link gives `null` (`None`); a
      link with "/file/d/" takes the segment after it; otherwise a link with
      "id=" takes the `id` parameter of the text after the first '?'. */
  function FileIdFromUrl(url: Option<string>): (r: Option<string>)
    ensures url.None? || url.value == "" ==> r.None?
    ensures r.Some? ==> url.Some? && (Contains(url.value, FileMarker) || Contains(url.value, "id="))
  {
    if url.None? || url.value == "" then None
    else
      var u := url.value;
      if Contains(u, FileMarker) then
        var parts := Split(u, FileMarker);
        Some(Split(parts[1], "/")[0])
      else if Contains(u, "id=") then
        var pieces := Split(u, "?");
        if |pieces| > 1 then QueryParam(pieces[1], "id") else None
      else None
  }

  /** The first '/' of `t` comes no later than the first `FileMarker`,
      which starts with '/'. */
  lemma SlashNoLaterThanMarker(t: string)
    ensures Pos(t, "/") <= Pos(t, FileMarker)
  {
    match IndexOf(t, FileMarker)
    case None =>
    case Some(i) =>
      assert t[i..i + |FileMarker|] == FileMarker;
      assert t[i..i + 1] == "/" by {
        assert t[i..i + 1] == t[i..i + |FileMarker|][..1];
      }
      assert Occurs(t, "/", i);
  }

  /** A link containing "/file/d/" yields the text after its first
      occurrence up to the next '/', whether or not it also holds "id=". */
  lemma FileIdFromDrivePath(u: string)
    requires Contains(u, FileMarker)
    ensures var t := After(u, FileMarker);
      && FileIdFromUrl(Some(u)) == Some(t[..Pos(t, "/")])
      && (forall k :: 0 <= k < Pos(t, "/") ==> t[k] != '/')
      && (Pos(t, "/") < |t| ==> t[Pos(t, "/")] == '/')
  {
    var t := After(u, FileMarker);
    assert Split(u, FileMarker)[1] == Before(t, FileMarker);
    assert Split(Before(t, FileMarker), "/")[0] == Before(Before(t, FileMarker), "/");
    BeforeThenBeforeChar(t, FileMarker, '/');
    SlashNoLaterThanMarker(t);
    PosChar(t, '/');
  }

  /** Without "/file/d/", a link containing "id=" yields the `id` parameter
      of the text between the first and the second '?', and nothing when
      there is no '?'. */
  lemma FileIdFromQuery(u: string)
    requires !Contains(u, FileMarker) && Contains(u, "id=")
    ensures Contains(u, "?") ==> FileIdFromUrl(Some(u)) == QueryParam(Before(After(u, "?"), "?"), "id")
    ensures !Contains(u, "?") ==> FileIdFromUrl(Some(u)).None?
  {
  }

  /** The value found for `name` is that of the first pair so named. */
  lemma QueryParamFirstPair(query: string, name: string, k: nat)
    requires k < |Split(query, "&")| && PairNamed(Split(query, "&")[k], name)
    requires forall j :: 0 <= j < k ==> !PairNamed(Split(query, "&")[j], name)
    ensures QueryParam(query, name) == Some(PairValue(Split(query, "&")[k]))
  {
    FindFirstIsFirst(Split(query, "&"), pair => PairNamed(pair, name), k);
  }

  // ---------------------------------------------------------------------
  // Choosing how to serve the file

  const GoogleAppsPrefix := "application/vnd.google-apps."

  /** The content type, the download name, and whether the file is exported
      to PDF (Google Docs, Sheets, Slides) or served as stored. */
  datatype Download = Download(contentType: string, fileName: string, asPdf: bool)

  /** The metadata's name and mime type default to "certificate.pdf" and
      "application/pdf". A Google Apps document is exported as PDF, with
      ".pdf" appended unless the name already ends in it (ignoring case);
      any other file keeps its own type and name. */
  function DownloadPlan(name: Option<string>, mime: Option<string>): (d: Download)
    ensures var fileName := if name.Some? && name.value != "" then name.value else "certificate.pdf";
      var mimeType := if mime.Some? && mime.value != "" then mime.value else "application/pdf";
      && (d.asPdf <==> StartsWith(mimeType, GoogleAppsPrefix))
      && (d.asPdf ==> d.contentType == "application/pdf" && EndsWith(Lower(d.fileName), ".pdf"))
      && (d.asPdf ==> d.fileName == fileName || d.fileName == fileName + ".pdf")
      && (d.asPdf ==> (d.fileName == fileName <==> EndsWith(Lower(fileName), ".pdf")))
      && (!d.asPdf ==> d.contentType == mimeType && d.fileName == fileName)
  {
    var fileName := if name.Some? && name.value != "" then name.value else "certificate.pdf";
    var mimeType := if mime.Some? && mime.value != "" then mime.value else "application/pdf";
    if StartsWith(mimeType, GoogleAppsPrefix) then
      var exported := if EndsWith(Lower(fileName), ".pdf") then fileName else fileName + ".pdf";
      LowerAppendPdf(fileName);
      Download("application/pdf", exported, true)
    else Download(mimeType, fileName, false)
  }

  lemma LowerAppendPdf(s: string)
    ensures EndsWith(Lower(s + ".pdf"), ".pdf")
  {
    var l := Lower(s + ".pdf");
    assert l[|s|..] == ".pdf" by {
      assert forall k :: 0 <= k < 4 ==> l[|s| + k] == LowerChar(".pdf"[k]);
    }
  }

  /** The name chosen for an export already ends in ".pdf", so choosing
      again from it appends nothing more. */
  lemma ExportNameStable(name: Option<string>, mime: Option<string>)
    requires DownloadPlan(name, mime).asPdf
    ensures DownloadPlan(Some(DownloadPlan(name, mime).fileName), mime) == DownloadPlan(name, mime)
  {
  }

  // ---------------------------------------------------------------------
  // The route's early answers

  datatype Answer = Failure(status: nat, error: string) | Serve(fileId: string)

  /** What the `catch` of the handler sees of a thrown error: its message,
      its `code`, and the status of its `response`, each possibly absent. */
  datatype Thrown = Thrown(message: Option<string>, code: Option<int>, responseStatus: Option<int>)

  /** The outcome of looking the user up: the lookup threw, or it found the
      user's certificate link (`None` when there is no such user or no link). */
  datatype Lookup = Threw(err: Thrown) | Found(certificate: Option<string>)

  const DriveDisabledMarker := "has not been used in project"

  /** The `catch`: a disabled Drive API is 500, a permission error (code or
      response status 403) is 403, anything else is 500. */
  function CatchAnswer(e: Thrown): (r: Answer)
    ensures r.Failure? && (r.status == 403 || r.status == 500)
    ensures e.message.Some? && e.message.value != "" && Contains(e.message.value, DriveDisabledMarker) ==>
      r == Failure(500, "Google Drive API Disabled")
    ensures r.status == 403 <==>
      !(e.message.Some? && e.message.value != "" && Contains(e.message.value, DriveDisabledMarker))
      && (e.code == Some(403) || e.responseStatus == Some(403))
    ensures r.status == 500 && r.error != "Google Drive API Disabled" ==> r == Failure(500, "Download Failed")
  {
    if e.message.Some? && e.message.value != "" && Contains(e.message.value, DriveDisabledMarker) then
      Failure(500, "Google Drive API Disabled")
    else if e.code == Some(403) || e.responseStatus == Some(403) then Failure(403, "Access Denied")
    else Failure(500, "Download Failed")
  }

  /** `GET ?userId=...` up to the Drive calls: a missing `userId` is 400
      (checked before the `try`); a lookup that throws is answered by the
      `catch`; a user without a certificate link is 404, a link with no
      usable file id is 400; otherwise the file is fetched. */
  function Route(userId: Option<string>, lookup: Lookup): (r: Answer)
    ensures userId.None? || userId.value == "" ==> r == Failure(400, "User ID required")
    ensures userId.Some? && userId.value != "" && lookup.Threw? ==> r == CatchAnswer(lookup.err)
    ensures userId.Some? && userId.value != "" && lookup.Found? && (lookup.certificate.None? || lookup.certificate.value == "") ==>
      r == Failure(404, "Certificate not found")
    ensures userId.Some? && userId.value != "" && lookup.Found? && lookup.certificate.Some? && lookup.certificate.value != "" ==>
      match FileIdFromUrl(lookup.certificate)
      case Some(id) => if id == "" then r == Failure(400, "Invalid certificate link format") else r == Serve(id)
      case None => r == Failure(400, "Invalid certificate link format")
  {
    if userId.None? || userId.value == "" then Failure(400, "User ID required")
    else if lookup.Threw? then CatchAnswer(lookup.err)
    else if lookup.certificate.None? || lookup.certificate.value == "" then Failure(404, "Certificate not found")
    else
      var fileId := FileIdFromUrl(lookup.certificate);
      if fileId.None? || fileId.value == "" then Failure(400, "Invalid certificate link format")
      else Serve(fileId.value)
  }

  /** A served file id is never empty and always comes out of the user's link. */
  lemma ServedIdFromLink(userId: Option<string>, lookup: Lookup)
    requires Route(userId, lookup).Serve?
    ensures userId.Some? && userId.value != "" && lookup.Found?
    ensures lookup.certificate.Some? && (Contains(lookup.certificate.value, FileMarker) || Contains(lookup.certificate.value, "id="))
    ensures Route(userId, lookup).fileId != "" && FileIdFromUrl(lookup.certificate) == Some(Route(userId, lookup).fileId)
  {
  }
}

/** Two helpers of the attendee dashboard: reading the person to connect with
    out of a scanned NFC tag, and patching the local list of connections
    after a request has been answered. */
module Dashboard {
  import opened Text
  import CT = ConnectionsTab

  const ProfilePath := "/p/"

  /** `processNfcUrl`'s target: input without "/p/" is used as it is;
      otherwise the text after the first "/p/", cut at the next "/p/" and
      then at the first '?'. */
  function NfcTarget(urlOrEmail: string): (target: string)
    ensures !Contains(urlOrEmail, ProfilePath) ==> target == urlOrEmail
    ensures |target| <= |urlOrEmail|
  {
    if Contains(urlOrEmail, ProfilePath) then
      var parts := Split(urlOrEmail, ProfilePath);
      Split(parts[1], "?")[0]
    else urlOrEmail
  }

  /** With "/p/", the target is the text after its first occurrence up to
      the next "/p/" or '?', whichever comes first (or to the end). */
  lemma NfcTargetFromProfileUrl(urlOrEmail: string)
    requires Contains(urlOrEmail, ProfilePath)
    ensures var t := After(urlOrEmail, ProfilePath);
      var cut := if Pos(t, ProfilePath) <= Pos(t, "?") then Pos(t, ProfilePath) else Pos(t, "?");
      && NfcTarget(urlOrEmail) == t[..cut]
      && (forall k :: 0 <= k < cut ==> t[k] != '?')
      && (cut < |t| ==> t[cut] == '?' || t[cut..cut + |ProfilePath|] == ProfilePath)
  {
    var t := After(urlOrEmail, ProfilePath);
    assert Split(urlOrEmail, ProfilePath)[1] == Before(t, ProfilePath);
    assert Split(Before(t, ProfilePath), "?")[0] == Before(Before(t, ProfilePath), "?");
    BeforeThenBeforeChar(t, ProfilePath, '?');
    PosChar(t, '?');
    if IndexOf(t, ProfilePath).Some? {
      assert Occurs(t, ProfilePath, Pos(t, ProfilePath));
    }
  }

  /** An entry of the dashboard's connection list. */
  datatype Listed = Listed(sourceEmail: Option<string>, targetEmail: Option<string>, status: string, name: string)

  /** `handleRespond`'s update of the local list: when the server answered
      `ok`, every entry from `sourceEmail` takes the new status; when it did
      not, the list is left as it was. */
  function Responded(list: seq<Listed>, sourceEmail: string, d: CT.Decision, ok: bool): (r: seq<Listed>)
    ensures |r| == |list|
    ensures !ok ==> r == list
    ensures ok ==> forall i :: 0 <= i < |list| && list[i].sourceEmail == Some(sourceEmail) ==>
      r[i] == list[i].(status := CT.DecisionText(d))
    ensures forall i :: 0 <= i < |list| && list[i].sourceEmail != Some(sourceEmail) ==> r[i] == list[i]
  {
    if !ok then list
    else
      seq(|list|, i requires 0 <= i < |list| =>
        if list[i].sourceEmail == Some(sourceEmail) then list[i].(status := CT.DecisionText(d)) else list[i])
  }

  /** Answering the same request twice leaves the list as answering it once,
      and the answered entries then carry exactly the decision's status. */
  lemma RespondedIdempotent(list: seq<Listed>, sourceEmail: string, d: CT.Decision)
    ensures var once := Responded(list, sourceEmail, d, true);
      && Responded(once, sourceEmail, d, true) == once
      && forall i :: 0 <= i < |once| && once[i].sourceEmail == Some(sourceEmail) ==> once[i].status == CT.DecisionText(d)
  {
    var once := Responded(list, sourceEmail, d, true);
    var twice := Responded(once, sourceEmail, d, true);
    assert forall i :: 0 <= i < |once| ==> once[i].sourceEmail == list[i].sourceEmail;
    assert forall i :: 0 <= i < |once| ==> twice[i] == once[i];
  }
}

/** The Next.js data layer over the same spreadsheet (`google-sheets.ts`).
    It hard-codes its own registration columns (status at M, password at N,
    slug at Q) and shares the Connections logic with the server, which is
    modelled once in `ConnectionsTab`. */
module ClientSheets {
  import opened Text
  import opened Cells
  import opened Seqs
  import opened Workbook
  import CT = ConnectionsTab
  import CC = ClientConfig
  import Credentials

  // The columns of "Form Responses 1" as this module reads and writes them.
  const TIMESTAMP: nat := 0
  const NAME: nat := 1
  const EMAIL: nat := 2
  const PHONE: nat := 3
  const UNIVERSITY: nat := 4
  const DEPARTMENT: nat := 5
  const YEAR: nat := 6
  const THEME: nat := 7
  const PARTICIPATION_TYPE: nat := 8
  const TEAM_NAME: nat := 9
  const TRANSACTION_ID: nat := 10
  /** The IEEE membership number; older rows kept the password here. */
  const IEEE_MEMBERSHIP: nat := 11
  const STATUS: nat := 12
  const PASSWORD: nat := 13
  const ANYTHING_ELSE: nat := 14
  const LINKEDIN: nat := 15
  const SLUG: nat := 16
  const INSTAGRAM: nat := 17
  const GITHUB: nat := 18

  /** The columns the configuration module next to this file declares are
      not the ones used here: it puts STATUS at O (14), PASSWORD at P (15)
      and SLUG at S (18). */
  lemma ConfigDisagreesWithDataLayer()
    ensures CC.Index(CC.Status) == 14 && STATUS == 12
    ensures CC.Index(CC.Password) == 15 && PASSWORD == 13
    ensures CC.Index(CC.Slug) == 18 && SLUG == 16
  {
    CC.IndexValues();
  }

  // ---------------------------------------------------------------------
  // authenticateUser

  datatype Session = Session(name: Option<string>, email: Option<string>, phone: Option<string>)

  /** The password cell in column `col` is present, non-blank once trimmed,
      and equal to the trimmed password. */
  predicate PasswordIn(row: Row, col: nat, pass: string) {
    var p := TrimCell(row, col);
    p.Some? && p.value != "" && p.value == Trim(pass)
  }

  /** The login test: the trimmed e-mail equals the trimmed user name, and the
      password is in column N or, for older rows, in column L. */
  predicate LoginMatch(row: Row, username: string, pass: string) {
    TrimCell(row, EMAIL) == Some(Trim(username)) && (PasswordIn(row, PASSWORD, pass) || PasswordIn(row, IEEE_MEMBERSHIP, pass))
  }

  /** `authenticateUser`: a session exactly when some row (the header
      included) matches; a failed read or a blank password never logs in. */
  function Authenticate(fetched: Option<Table>, username: string, pass: string): (r: Option<Session>)
    ensures r.Some? <==> fetched.Some? && exists i :: 0 <= i < |fetched.value| && LoginMatch(fetched.value[i], username, pass)
    ensures Trim(pass) == "" ==> r.None?
  {
    if fetched.None? || |fetched.value| == 0 then None
    else
      match FindFirst(fetched.value, row => LoginMatch(row, username, pass))
      case None => None
      case Some(k) =>
        var user := fetched.value[k];
        Some(Session(Cell(user, NAME), Cell(user, EMAIL), Cell(user, PHONE)))
  }

  /** The session describes the first matching row. */
  lemma AuthenticateFirstMatch(rows: Table, username: string, pass: string, k: nat)
    requires k < |rows| && LoginMatch(rows[k], username, pass)
    requires forall j :: 0 <= j < k ==> !LoginMatch(rows[j], username, pass)
    ensures Authenticate(Some(rows), username, pass) == Some(Session(Cell(rows[k], NAME), Cell(rows[k], EMAIL), Cell(rows[k], PHONE)))
  {
    FindFirstIsFirst(rows, row => LoginMatch(row, username, pass), k);
  }

  // ---------------------------------------------------------------------
  // appendUserAndGetCredentials and getPassword

  datatype Registration = Registration(
    name: string, email: string, phone: Option<string>, university: Option<string>, department: Option<string>,
    year: Option<string>, theme: Option<string>, participationType: Option<string>, teamName: Option<string>,
    transactionId: Option<string>, ieeeMembershipNumber: Option<string>, anythingElse: Option<string>,
    github: Option<string>)

  /** The row appended for a new registration: nineteen cells A..S, status
      "Pending" in M, the password in N, the slug in Q, and LinkedIn and
      Instagram left empty. */
  function RegistrationRow(timestamp: string, d: Registration, password: string, slug: string): (r: Row)
    ensures |r| == 19
    ensures r[NAME] == d.name && r[EMAIL] == d.email
    ensures r[STATUS] == "Pending" && r[PASSWORD] == password && r[SLUG] == slug
    ensures r[LINKEDIN] == "" && r[INSTAGRAM] == ""
  {
    [timestamp, d.name, d.email, Or(d.phone, ""), Or(d.university, ""), Or(d.department, ""), Or(d.year, ""),
     Or(d.theme, ""), Or(d.participationType, ""), Or(d.teamName, ""), Or(d.transactionId, ""),
     Or(d.ieeeMembershipNumber, ""), "Pending", password, Or(d.anythingElse, ""), "", slug, "", Or(d.github, "")]
  }

  /** `appendUserAndGetCredentials`: the credentials are made for the sheet
      row the new registration lands on, and the row is appended. The clock,
      the random password picks and the random slug are parameters. */
  method AppendUserAndGetCredentials(book: Spreadsheet, d: Registration, timestamp: string, picks: seq<nat>, slug: string)
    returns (username: string, password: string)
    requires |picks| == 6 && forall i :: 0 <= i < 6 ==> picks[i] < |Credentials.Alphabet|
    modifies book
    ensures username == "SMPK" + IntToDecimal(1001 + |old(book.responses)|)
    ensures |password| == 6 && forall i :: 0 <= i < 6 ==> password[i] == Credentials.Alphabet[picks[i]]
    ensures book.responses == old(book.responses) + [RegistrationRow(timestamp, d, password, slug)]
    ensures book.connections == old(book.connections)
  {
    var nextRow := |book.responses| + 1;
    username, password := Credentials.GenerateCredentials(nextRow, picks);
    book.responses := book.responses + [RegistrationRow(timestamp, d, password, slug)];
  }

  /** `getPassword(rowIndex)`: the non-empty value of column N on that sheet
      row; a failed read, row 0, an absent row or an empty cell give `None`. */
  function GetPassword(fetched: Option<Table>, rowIndex: nat): (r: Option<string>)
    ensures r.Some? <==> fetched.Some? && 1 <= rowIndex <= |fetched.value| && NonEmpty(Cell(fetched.value[rowIndex - 1], PASSWORD)).Some?
    ensures r.Some? ==> r.value == fetched.value[rowIndex - 1][PASSWORD]
  {
    if fetched.None? || rowIndex == 0 || rowIndex > |fetched.value| then None
    else NonEmpty(Cell(fetched.value[rowIndex - 1], PASSWORD))
  }

  /** A freshly registered user logs in with their e-mail and the password
      handed back, and that password is what column N holds on the sheet row
      the credentials were made for. */
  lemma RegisteredUserCanLogIn(rows: Table, timestamp: string, d: Registration, password: string, slug: string)
    requires password != [] && forall i :: 0 <= i < |password| ==> password[i] in Credentials.Alphabet
    ensures var after := rows + [RegistrationRow(timestamp, d, password, slug)];
      && Authenticate(Some(after), d.email, password).Some?
      && GetPassword(Some(after), |rows| + 1) == Some(password)
  {
    var row := RegistrationRow(timestamp, d, password, slug);
    var after := rows + [row];
    assert !IsSpace(password[0]) by {
      Credentials.AlphabetUnambiguous();
    }
    TrimEmptyIffBlank(password);
    assert LoginMatch(after[|rows|], d.email, password) by {
      assert PasswordIn(row, PASSWORD, password);
    }
  }

  // ---------------------------------------------------------------------
  // getAllUsers and updateUserStatus

  datatype User = User(
    rowIndex: nat, timestamp: Option<string>, name: Option<string>, email: Option<string>, phone: Option<string>,
    university: Option<string>, department: Option<string>, year: Option<string>, theme: Option<string>,
    participationType: Option<string>, teamName: Option<string>, transactionId: string,
    ieeeMembershipNumber: string, status: string, anythingElse: Option<string>, linkedin: string,
    slug: string, instagram: string, github: string)

  /** One registration row as a user record; the status defaults to "Pending". */
  function ToUser(row: Row, rowIndex: nat): (u: User)
    ensures u.rowIndex == rowIndex && u.email == Cell(row, EMAIL)
    ensures u.status != "" && (NonEmpty(Cell(row, STATUS)).Some? ==> u.status == row[STATUS])
    ensures NonEmpty(Cell(row, STATUS)).None? ==> u.status == "Pending"
  {
    User(rowIndex, Cell(row, TIMESTAMP), Cell(row, NAME), Cell(row, EMAIL), Cell(row, PHONE), Cell(row, UNIVERSITY),
         Cell(row, DEPARTMENT), Cell(row, YEAR), Cell(row, THEME), Cell(row, PARTICIPATION_TYPE), Cell(row, TEAM_NAME),
         Or(Cell(row, TRANSACTION_ID), ""), Or(Cell(row, IEEE_MEMBERSHIP), ""), Or(Cell(row, STATUS), "Pending"),
         Cell(row, ANYTHING_ELSE), Or(Cell(row, LINKEDIN), ""), Or(Cell(row, SLUG), ""),
         Or(Cell(row, INSTAGRAM), ""), Or(Cell(row, GITHUB), ""))
  }

  /** `getAllUsers`: every row after the header, in order, at sheet row
      position + 2. */
  function GetAllUsers(rows: Table): (r: seq<User>)
    ensures |r| == if |rows| == 0 then 0 else |rows| - 1
    ensures forall i :: 0 <= i < |r| ==> r[i] == ToUser(rows[i + 1], i + 2)
  {
    if |rows| == 0 then []
    else seq(|rows| - 1, i requires 0 <= i < |rows| - 1 => ToUser(rows[i + 1], i + 2))
  }

  /** `updateUserStatus(rowIndex, status)`: overwrites column M of that sheet
      row. */
  method UpdateUserStatus(book: Spreadsheet, rowIndex: nat, newStatus: string)
    requires 1 <= rowIndex
    modifies book
    ensures book.responses == WriteCell(old(book.responses), rowIndex, STATUS, newStatus)
    ensures book.connections == old(book.connections)
  {
    book.responses := WriteCell(book.responses, rowIndex, STATUS, newStatus);
  }

  /** The `rowIndex` that `getAllUsers` reports addresses the same user for
      `updateUserStatus`: after the update, that user reads the new status,
      and every other user is unchanged. */
  lemma StatusUpdateRoundTrip(rows: Table, i: nat, newStatus: string)
    requires i < |GetAllUsers(rows)| && newStatus != ""
    ensures var after := GetAllUsers(WriteCell(rows, GetAllUsers(rows)[i].rowIndex, STATUS, newStatus));
      && |after| == |GetAllUsers(rows)|
      && after[i].status == newStatus
      && forall j :: 0 <= j < |after| && j != i ==> after[j] == GetAllUsers(rows)[j]
  {
    var t := WriteCell(rows, i + 2, STATUS, newStatus);
    assert t[i + 1] == SetCell(rows[i + 1], STATUS, newStatus);
    assert Cell(t[i + 1], STATUS) == Some(newStatus);
  }

  // ---------------------------------------------------------------------
  // updateUserDetails

  datatype Details = Details(
    name: Option<string>, email: Option<string>, phone: Option<string>, university: Option<string>,
    department: Option<string>, year: Option<string>, theme: Option<string>, participationType: Option<string>,
    teamName: Option<string>, anythingElse: Option<string>, linkedin: Option<string>,
    instagram: Option<string>, github: Option<string>)

  /** The values written to B..J; an absent field is sent as `null`, which
      leaves its cell as it was. */
  function MainValues(d: Details): (r: seq<Option<string>>)
    ensures |r| == 9
  {
    [d.name, d.email, d.phone, d.university, d.department, d.year, d.theme, d.participationType, d.teamName]
  }

  /** The three range writes of `updateUserDetails` on one row. */
  function DetailsRow(row: Row, d: Details): Row {
    var main := SetCells(row, NAME, MainValues(d));
    var middle := SetCells(main, ANYTHING_ELSE, [Some(Or(d.anythingElse, "")), Some(Or(d.linkedin, ""))]);
    SetCells(middle, INSTAGRAM, [Some(Or(d.instagram, "")), Some(Or(d.github, ""))])
  }

  /** `updateUserDetails(rowIndex, data)`: writes B..J, then O..P, then R..S
      of that sheet row, and nothing else. */
  method UpdateUserDetails(book: Spreadsheet, rowIndex: nat, d: Details)
    requires 1 <= rowIndex
    modifies book
    ensures |book.responses| == if rowIndex <= |old(book.responses)| then |old(book.responses)| else rowIndex
    ensures book.responses[rowIndex - 1] ==
      DetailsRow(if rowIndex <= |old(book.responses)| then old(book.responses)[rowIndex - 1] else [], d)
    ensures forall k :: 0 <= k < |old(book.responses)| && k != rowIndex - 1 ==> book.responses[k] == old(book.responses)[k]
    ensures forall k :: |old(book.responses)| <= k < |book.responses| && k != rowIndex - 1 ==> book.responses[k] == []
    ensures book.connections == old(book.connections)
  {
    var t0 := book.responses;
    var t1 := WriteCells(t0, rowIndex, NAME, MainValues(d));
    var t2 := WriteCells(t1, rowIndex, ANYTHING_ELSE, [Some(Or(d.anythingElse, "")), Some(Or(d.linkedin, ""))]);
    var t3 := WriteCells(t2, rowIndex, INSTAGRAM, [Some(Or(d.instagram, "")), Some(Or(d.github, ""))]);
    book.responses := t3;
  }

  /** The timestamp (A), transaction id (K), IEEE number (L), status (M),
      password (N) and slug (Q) read the same after `updateUserDetails`. */
  lemma DetailsKeepProtectedColumns(row: Row, d: Details, c: nat)
    requires c == TIMESTAMP || TRANSACTION_ID <= c <= PASSWORD || c == SLUG
    ensures Or(Cell(DetailsRow(row, d), c), "") == Or(Cell(row, c), "")
    ensures c < |row| ==> DetailsRow(row, d)[c] == row[c]
  {
    var main := SetCells(row, NAME, MainValues(d));
    var middle := SetCells(main, ANYTHING_ELSE, [Some(Or(d.anythingElse, "")), Some(Or(d.linkedin, ""))]);
    var last := SetCells(middle, INSTAGRAM, [Some(Or(d.instagram, "")), Some(Or(d.github, ""))]);
    if c < |last| {
      assert last[c] == if c < |middle| then middle[c] else "";
      if c < |middle| {
        assert middle[c] == if c < |main| then main[c] else "";
        if c < |main| {
          assert main[c] == if c < |row| then row[c] else "";
        }
      }
    }
  }

  /** Every field given lands in its column: B..J for the main fields (an
      absent one is skipped), O and P, R and S with `''` for an absent value. */
  lemma DetailsWrittenWhereExpected(row: Row, d: Details, j: nat)
    requires j < 9 && MainValues(d)[j].Some?
    ensures var r := DetailsRow(row, d);
      && NAME + j < |r| && r[NAME + j] == MainValues(d)[j].value
      && |r| >= 19
      && r[ANYTHING_ELSE] == Or(d.anythingElse, "") && r[LINKEDIN] == Or(d.linkedin, "")
      && r[INSTAGRAM] == Or(d.instagram, "") && r[GITHUB] == Or(d.github, "")
  {
    var main := SetCells(row, NAME, MainValues(d));
    var midValues := [Some(Or(d.anythingElse, "")), Some(Or(d.linkedin, ""))];
    var endValues := [Some(Or(d.instagram, "")), Some(Or(d.github, ""))];
    var middle := SetCells(main, ANYTHING_ELSE, midValues);
    var last := SetCells(middle, INSTAGRAM, endValues);
    assert NAME + j < |main| && main[NAME + j] == MainValues(d)[j].value;
    assert midValues[0].Some? && midValues[1].Some? && endValues[0].Some? && endValues[1].Some?;
    assert middle[NAME + j] == main[NAME + j];
    assert last[NAME + j] == middle[NAME + j];
    assert last[ANYTHING_ELSE] == middle[ANYTHING_ELSE];
    assert last[ANYTHING_ELSE + 1] == middle[ANYTHING_ELSE + 1];
  }

  // ---------------------------------------------------------------------
  // getUserConnections

  /** The key `if (row[1])` admits into the name map: the trimmed,
      lower-cased e-mail of a B:C row whose e-mail cell is non-empty. */
  function NameKey(row: Row): Option<string> {
    if |row| > 1 && row[1] != "" then Some(Norm(row[1])) else None
  }

  /** The name map the `forEach` over the B:C rows fills; the name is the
      row's first cell. */
  function NameMap(userRows: Table): map<string, Option<string>> {
    ToMap(userRows, NameKey, (row: Row) => Cell(row, 0))
  }

  /** Filling the name map one row at a time. */
  method BuildNameMap(userRows: Table) returns (emailToNameMap: map<string, Option<string>>)
    ensures emailToNameMap == NameMap(userRows)
  {
    emailToNameMap := map[];
    for i := 0 to |userRows|
      invariant emailToNameMap == NameMap(userRows[..i])
    {
      var row := userRows[i];
      ToMapAppend(userRows[..i], row, NameKey, (row: Row) => Cell(row, 0));
      assert userRows[..i + 1] == userRows[..i] + [row];
      if |row| > 1 && row[1] != "" {
        emailToNameMap := emailToNameMap[Norm(row[1]) := Cell(row, 0)];
      }
    }
    assert userRows[..|userRows|] == userRows;
  }

  /** A row with an e-mail is in the map and, when no later row has the same
      normalised e-mail, maps to its own name cell. */
  lemma NameMapLastWins(userRows: Table, i: nat)
    requires i < |userRows| && NameKey(userRows[i]).Some?
    requires forall j :: i < j < |userRows| ==> NameKey(userRows[j]) != NameKey(userRows[i])
    ensures NameKey(userRows[i]).value in NameMap(userRows)
    ensures NameMap(userRows)[NameKey(userRows[i]).value] == Cell(userRows[i], 0)
  {
  }

  datatype ConnectionView = ConnectionView(
    sourceEmail: Option<string>, targetEmail: Option<string>, timestamp: Option<string>,
    sourceName: string, sourcePhone: string, note: string, status: string,
    direction: CT.Direction, name: string)

  /** One Connections row as seen by `me`: the stored source name, phone and
      note default to "Anonymous", "" and "", the status to "Pending". */
  function View(row: Row, me: string, names: map<string, Option<string>>): (v: ConnectionView)
    ensures v.direction == CT.Incoming <==> NormCell(row, CT.TARGET) == Some(me)
    ensures v.sourceEmail == Cell(row, CT.SOURCE) && v.targetEmail == Cell(row, CT.TARGET)
    ensures v.sourceName != "" && (NonEmpty(Cell(row, CT.SOURCE_NAME)).Some? ==> v.sourceName == row[CT.SOURCE_NAME])
    ensures v.status != "" && (NonEmpty(Cell(row, CT.STATUS)).Some? ==> v.status == row[CT.STATUS])
    ensures v.name != ""
  {
    var source, target := NormCell(row, CT.SOURCE), NormCell(row, CT.TARGET);
    var isTarget := target == Some(me);
    var other := if isTarget then source else target;
    ConnectionView(Cell(row, CT.SOURCE), Cell(row, CT.TARGET), Cell(row, CT.TIMESTAMP),
                   Or(Cell(row, CT.SOURCE_NAME), "Anonymous"), Or(Cell(row, CT.SOURCE_PHONE), ""),
                   Or(Cell(row, CT.NOTE), ""), Or(Cell(row, CT.STATUS), "Pending"),
                   if isTarget then CT.Incoming else CT.Outgoing,
                   CT.OtherName(names, other, isTarget, Cell(row, CT.SOURCE_NAME)))
  }

  /** `getUserConnections(email)`: the Connections rows with `email` at either
      end, newest first; a failed read gives the empty list. */
  method GetUserConnections(conns: Option<Table>, userRows: Table, email: string) returns (r: seq<ConnectionView>)
    ensures conns.None? ==> r == []
    ensures conns.Some? ==> |r| == |CT.Touching(conns.value, Norm(email))|
    ensures conns.Some? ==> var sel := CT.Touching(conns.value, Norm(email));
      forall k :: 0 <= k < |r| ==> r[k] == View(sel[|sel| - 1 - k], Norm(email), NameMap(userRows))
  {
    if conns.None? {
      return [];
    }
    var rows := conns.value;
    if |rows| == 0 {
      return [];
    }
    var emailToNameMap := BuildNameMap(userRows);
    var normalizedEmail := Norm(email);
    var sel := CT.Touching(rows, normalizedEmail);
    var views := seq(|sel|, k requires 0 <= k < |sel| => View(sel[k], normalizedEmail, emailToNameMap));
    r := Reverse(views);
    forall k | 0 <= k < |r|
      ensures r[k] == View(sel[|sel| - 1 - k], normalizedEmail, emailToNameMap)
    {
      assert r[k] == views[|sel| - 1 - k];
    }
  }

  // ---------------------------------------------------------------------
  // getUser and getUserBySlug

  datatype Profile = Profile(
    id: Option<string>, name: Option<string>, email: Option<string>, phone: string, role: string,
    theme: string, bio: string, transactionId: string, ieeeMembershipNumber: string, linkedin: string,
    slug: string, instagram: string, github: string, participationType: string, connections: nat)

  /** The public profile: no e-mail and no phone number. */
  datatype PublicProfile = PublicProfile(
    id: Option<string>, name: Option<string>, role: string, theme: string, bio: string, linkedin: string,
    slug: string, instagram: string, github: string, participationType: string, connections: nat)

  predicate EmailMatch(row: Row, email: string) {
    TrimCell(row, EMAIL) == Some(Trim(email))
  }

  /** The profile `getUser` builds from a row and a connection count;
      optional text columns fall back to "" (`|| ''`). */
  function ProfileOf(row: Row, connections: nat): Profile {
    Profile(Cell(row, EMAIL), Cell(row, NAME), Cell(row, EMAIL), Or(Cell(row, PHONE), ""), "user",
            Or(Cell(row, THEME), ""), Or(Cell(row, ANYTHING_ELSE), ""),
            Or(Cell(row, TRANSACTION_ID), ""), Or(Cell(row, IEEE_MEMBERSHIP), ""),
            Or(Cell(row, LINKEDIN), ""), Or(Cell(row, SLUG), ""), Or(Cell(row, INSTAGRAM), ""),
            Or(Cell(row, GITHUB), ""), Or(Cell(row, PARTICIPATION_TYPE), ""), connections)
  }

  /** The public profile `getUserBySlug` builds from a row and a count. */
  function PublicProfileOf(row: Row, connections: nat): PublicProfile {
    PublicProfile(Cell(row, EMAIL), Cell(row, NAME), "user", Or(Cell(row, THEME), ""), Or(Cell(row, ANYTHING_ELSE), ""),
                  Or(Cell(row, LINKEDIN), ""), Or(Cell(row, SLUG), ""), Or(Cell(row, INSTAGRAM), ""),
                  Or(Cell(row, GITHUB), ""), Or(Cell(row, PARTICIPATION_TYPE), ""), connections)
  }

  /** `getConnectionsCount` as a caller sees it: 0 when the e-mail is absent
      (the count's own `catch` answers 0) or the read fails. */
  function CountFor(conns: Option<Table>, email: Option<string>): nat {
    if email.None? || conns.None? then 0 else |CT.Partners(conns.value, Norm(email.value))|
  }

  /** `getUser(email)`: the profile of the first row (the header included)
      whose trimmed e-mail equals the trimmed argument, with its connection
      count; `null` when no row matches. */
  method GetUser(fetched: Option<Table>, conns: Option<Table>, email: string) returns (r: Option<Profile>)
    ensures r.Some? <==> fetched.Some? && exists i :: 0 <= i < |fetched.value| && EmailMatch(fetched.value[i], email)
    ensures r.Some? ==> exists i :: (0 <= i < |fetched.value| && EmailMatch(fetched.value[i], email)
                                     && (forall j :: 0 <= j < i ==> !EmailMatch(fetched.value[j], email))
                                     && r.value == ProfileOf(fetched.value[i], CountFor(conns, Some(email))))
    ensures r.Some? ==> r.value.email.Some? && Trim(r.value.email.value) == Trim(email)
    ensures r.Some? ==> r.value.connections == (if conns.None? then 0 else |CT.Partners(conns.value, Norm(email))|)
    ensures r.Some? ==> r.value.role == "user" && r.value.id == r.value.email
  {
    if fetched.None? || |fetched.value| == 0 {
      return None;
    }
    var rows := fetched.value;
    var found := FindFirst(rows, row => EmailMatch(row, email));
    if found.None? {
      return None;
    }
    var userRow := rows[found.value];
    var connections := CT.CountConnections(conns, email);
    r := Some(Profile(Cell(userRow, EMAIL), Cell(userRow, NAME), Cell(userRow, EMAIL), Or(Cell(userRow, PHONE), ""), "user",
                      Or(Cell(userRow, THEME), ""), Or(Cell(userRow, ANYTHING_ELSE), ""),
                      Or(Cell(userRow, TRANSACTION_ID), ""), Or(Cell(userRow, IEEE_MEMBERSHIP), ""),
                      Or(Cell(userRow, LINKEDIN), ""), Or(Cell(userRow, SLUG), ""), Or(Cell(userRow, INSTAGRAM), ""),
                      Or(Cell(userRow, GITHUB), ""), Or(Cell(userRow, PARTICIPATION_TYPE), ""), connections));
    assert r.value == ProfileOf(rows[found.value], CountFor(conns, Some(email)));
  }

  predicate SlugMatch(row: Row, slug: string) {
    TrimCell(row, SLUG) == Some(Trim(slug))
  }

  /** `getUserBySlug(slug)`: the public profile of the first row whose
      trimmed column Q equals the trimmed argument, with the connection count
      of that row's e-mail (0 when the e-mail cell is absent, where the
      count's own error handling answers 0). */
  method GetUserBySlug(fetched: Option<Table>, conns: Option<Table>, slug: string) returns (r: Option<PublicProfile>)
    ensures r.Some? <==> fetched.Some? && exists i :: 0 <= i < |fetched.value| && SlugMatch(fetched.value[i], slug)
    ensures r.Some? ==> exists i :: (0 <= i < |fetched.value| && SlugMatch(fetched.value[i], slug)
                                     && (forall j :: 0 <= j < i ==> !SlugMatch(fetched.value[j], slug))
                                     && r.value == PublicProfileOf(fetched.value[i], CountFor(conns, Cell(fetched.value[i], EMAIL))))
    ensures r.Some? ==> Trim(r.value.slug) == Trim(slug) && r.value.role == "user"
    ensures r.Some? && (r.value.id.None? || conns.None?) ==> r.value.connections == 0
    ensures r.Some? && r.value.id.Some? && conns.Some? ==> r.value.connections == |CT.Partners(conns.value, Norm(r.value.id.value))|
  {
    if fetched.None? || |fetched.value| == 0 {
      return None;
    }
    var rows := fetched.value;
    var found := FindFirst(rows, row => SlugMatch(row, slug));
    if found.None? {
      return None;
    }
    var userRow := rows[found.value];
    var email := Cell(userRow, EMAIL);
    var connectionsCount := 0;
    if email.Some? {
      connectionsCount := CT.CountConnections(conns, email.value);
    }
    r := Some(PublicProfile(email, Cell(userRow, NAME), "user", Or(Cell(userRow, THEME), ""), Or(Cell(userRow, ANYTHING_ELSE), ""),
                            Or(Cell(userRow, LINKEDIN), ""), Or(Cell(userRow, SLUG), ""), Or(Cell(userRow, INSTAGRAM), ""),
                            Or(Cell(userRow, GITHUB), ""), Or(Cell(userRow, PARTICIPATION_TYPE), ""), connectionsCount));
    assert r.value == PublicProfileOf(rows[found.value], CountFor(conns, email));
  }

  // ---------------------------------------------------------------------
  // getConnectionStatus

  /** `getConnectionStatus(a, b)`: "None" when the read fails, otherwise the
      status of the first row linking the two. */
  function ConnectionStatus(fetched: Option<Table>, a: string, b: string): (r: string)
    ensures fetched.None? ==> r == "None"
    ensures fetched.Some? && (forall i :: 0 <= i < |fetched.value| ==> !CT.Links(fetched.value[i], Norm(a), Norm(b))) ==> r == "None"
  {
    if fetched.None? then "None" else CT.StatusBetween(fetched.value, a, b)
  }

  /** The answer does not depend on the order of the two e-mails. */
  lemma ConnectionStatusSymmetric(fetched: Option<Table>, a: string, b: string)
    ensures ConnectionStatus(fetched, a, b) == ConnectionStatus(fetched, b, a)
  {
    if fetched.Some? {
      CT.StatusSymmetric(fetched.value, a, b);
    }
  }

  // ---------------------------------------------------------------------
  // searchUsers

  /** A search result: name, theme and slug, never the e-mail or phone. */
  datatype SearchHit = SearchHit(name: Option<string>, theme: string, slug: string)

  /** The lower-cased name or e-mail (empty when absent) contains the
      lower-cased query. */
  predicate SearchMatch(row: Row, query: string) {
    Contains(Lower(Or(Cell(row, NAME), "")), Lower(query)) || Contains(Lower(Or(Cell(row, EMAIL), "")), Lower(query))
  }

  /** The matching rows after the header, in sheet order. */
  function Matching(rows: Table, query: string): (r: Table)
    ensures forall i :: 0 <= i < |r| ==> SearchMatch(r[i], query) && exists j :: 1 <= j < |rows| && rows[j] == r[i]
    ensures forall j :: 1 <= j < |rows| && SearchMatch(rows[j], query) ==> rows[j] in r
  {
    if |rows| == 0 then []
    else
      var body := rows[1..];
      var r := Filter(body, row => SearchMatch(row, query));
      assert forall j :: 1 <= j < |rows| ==> rows[j] == body[j - 1];
      forall i | 0 <= i < |r| ensures exists j :: 1 <= j < |rows| && rows[j] == r[i] {
        var k :| 0 <= k < |body| && body[k] == r[i];
        assert rows[k + 1] == r[i];
      }
      r
  }

  function Hit(row: Row): SearchHit {
    SearchHit(Cell(row, NAME), Or(Cell(row, THEME), ""), Or(Cell(row, SLUG), ""))
  }

  /** `searchUsers(query)`: the first ten matches, reduced to search hits; a
      failed read gives the empty list. */
  function SearchUsers(fetched: Option<Table>, query: string): (r: seq<SearchHit>)
    ensures |r| <= 10
    ensures fetched.None? ==> r == []
    ensures fetched.Some? ==> var m := Matching(fetched.value, query);
      && |r| == (if |m| < 10 then |m| else 10)
      && forall k :: 0 <= k < |r| ==> r[k] == Hit(m[k])
  {
    if fetched.None? then []
    else
      var m := Matching(fetched.value, query);
      Take(seq(|m|, k requires 0 <= k < |m| => Hit(m[k])), 10)
  }
}

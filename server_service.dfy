/** The Express server's `GoogleSheetService` over the two tabs of the
    workbook. The registration tab is read with the server's column layout;
    the Connections tab logic is shared with the Next.js library and lives in
    `ConnectionsTab`. A read that yields no `values` is `None`. */
module ServerSheets {
  import opened Text
  import opened Cells
  import opened Seqs
  import opened Workbook
  import CT = ConnectionsTab
  import SC = ServerConfig

  // Registration-tab columns of the server layout (`SHEET_CONFIG.INDEX`).
  const TIMESTAMP: nat := 0
  const NAME: nat := 1
  const EMAIL: nat := 2
  const PHONE: nat := 3
  const UNIVERSITY: nat := 4
  const DEPARTMENT: nat := 5
  const YEAR: nat := 6
  const SELECTED_EVENT: nat := 7
  const POSTER_THEME: nat := 8
  const TRANSACTION_ID: nat := 9
  const IEEE_MEMBERSHIP: nat := 10
  const LINKEDIN: nat := 13
  const STATUS: nat := 20
  const PASSWORD: nat := 21
  const GITHUB: nat := 22
  const INSTAGRAM: nat := 23
  /** Column Y, where `COLUMNS.SLUG` puts the slug; `INDEX` omits it. */
  const SLUG: nat := 24

  /** The constants above are the server configuration's indices. */
  lemma ColumnsFromConfig()
    ensures SC.Index(SC.Timestamp) == Some(TIMESTAMP as int) && SC.Index(SC.Name) == Some(NAME as int)
    ensures SC.Index(SC.Email) == Some(EMAIL as int) && SC.Index(SC.Phone) == Some(PHONE as int)
    ensures SC.Index(SC.University) == Some(UNIVERSITY as int) && SC.Index(SC.Department) == Some(DEPARTMENT as int)
    ensures SC.Index(SC.Year) == Some(YEAR as int) && SC.Index(SC.SelectedEvent) == Some(SELECTED_EVENT as int)
    ensures SC.Index(SC.PosterTheme) == Some(POSTER_THEME as int) && SC.Index(SC.TransactionId) == Some(TRANSACTION_ID as int)
    ensures SC.Index(SC.IeeeMembership) == Some(IEEE_MEMBERSHIP as int) && SC.Index(SC.LinkedIn) == Some(LINKEDIN as int)
    ensures SC.Index(SC.Status) == Some(STATUS as int) && SC.Index(SC.Password) == Some(PASSWORD as int)
    ensures SC.Index(SC.Github) == Some(GITHUB as int) && SC.Index(SC.Instagram) == Some(INSTAGRAM as int)
    ensures SC.Index(SC.Slug) == None && SC.FieldIndex(SC.Slug) == SLUG as int
  {
    SC.IndexValues();
  }

  // ---------------------------------------------------------------------
  // getAllUsers

  datatype User = User(
    rowIndex: nat,
    timestamp: Option<string>, name: Option<string>, email: Option<string>, phone: Option<string>,
    university: Option<string>, department: Option<string>, year: Option<string>,
    selectedEvent: Option<string>, posterTheme: Option<string>, transactionId: Option<string>,
    ieeeMembershipNumber: Option<string>, status: string, github: Option<string>,
    linkedin: Option<string>, slug: Option<string>, instagram: Option<string>)

  /** One registration row as a user record at sheet row `rowIndex`; the
      status is never empty, since a blank status reads as "Pending". */
  function ToUser(row: Row, rowIndex: nat): (u: User)
    ensures u.rowIndex == rowIndex && u.email == Cell(row, EMAIL) && u.name == Cell(row, NAME)
    ensures u.status != ""
    ensures NonEmpty(Cell(row, STATUS)).Some? ==> u.status == row[STATUS]
    ensures NonEmpty(Cell(row, STATUS)).None? ==> u.status == "Pending"
  {
    User(rowIndex, Cell(row, TIMESTAMP), Cell(row, NAME), Cell(row, EMAIL), Cell(row, PHONE),
         Cell(row, UNIVERSITY), Cell(row, DEPARTMENT), Cell(row, YEAR), Cell(row, SELECTED_EVENT),
         Cell(row, POSTER_THEME), Cell(row, TRANSACTION_ID), Cell(row, IEEE_MEMBERSHIP),
         Or(Cell(row, STATUS), "Pending"), Cell(row, GITHUB), Cell(row, LINKEDIN), Cell(row, SLUG),
         Cell(row, INSTAGRAM))
  }

  /** `getAllUsers`: one record per row after the header, in sheet order,
      each carrying its 1-based sheet row (position + 2). */
  function AllUsers(rows: Table): (r: seq<User>)
    ensures |rows| == 0 ==> r == []
    ensures |rows| > 0 ==> |r| == |rows| - 1
    ensures forall i :: 0 <= i < |r| ==> r[i] == ToUser(rows[i + 1], i + 2)
    ensures EmailsPresent(rows) ==> forall i :: 0 <= i < |r| ==> r[i].email.Some?
  {
    if |rows| == 0 then []
    else seq(|rows| - 1, i requires 0 <= i < |rows| - 1 => ToUser(rows[i + 1], i + 2))
  }

  /** Every registered row after the header has an e-mail cell. */
  predicate EmailsPresent(rows: Table) {
    forall i :: 1 <= i < |rows| ==> Cell(rows[i], EMAIL).Some?
  }

  // ---------------------------------------------------------------------
  // authenticateUser

  datatype Session = Session(name: Option<string>, email: Option<string>, phone: Option<string>, slug: Option<string>)

  /** The login test: trimmed e-mail equals the trimmed user name, and the
      trimmed password cell is non-empty and equals the trimmed password. */
  predicate CredentialsMatch(row: Row, username: string, pass: string) {
    && TrimCell(row, EMAIL) == Some(Trim(username))
    && TrimCell(row, PASSWORD).Some?
    && TrimCell(row, PASSWORD).value != ""
    && TrimCell(row, PASSWORD).value == Trim(pass)
  }

  /** The session carries the row's name (B), e-mail (C), phone (D) and
      slug (read from Y; see `SlugMatch`). */
  function SessionOf(row: Row): (s: Session)
    ensures s.name == Cell(row, NAME) && s.email == Cell(row, EMAIL) && s.phone == Cell(row, PHONE)
    ensures s.slug == Cell(row, SLUG)
  {
    Session(Cell(row, NAME), Cell(row, EMAIL), Cell(row, PHONE), Cell(row, SLUG))
  }

  /** `authenticateUser`: a session exactly when some row (the header
      included) matches; a blank password never logs in. */
  function Authenticate(fetched: Option<Table>, username: string, pass: string): (r: Option<Session>)
    ensures r.Some? <==> fetched.Some? && exists i :: 0 <= i < |fetched.value| && CredentialsMatch(fetched.value[i], username, pass)
    ensures Trim(pass) == "" ==> r.None?
  {
    if fetched.None? || |fetched.value| == 0 then None
    else
      match FindFirst(fetched.value, row => CredentialsMatch(row, username, pass))
      case None => None
      case Some(k) => Some(SessionOf(fetched.value[k]))
  }

  /** The session describes the first matching row. */
  lemma AuthenticateFirstMatch(rows: Table, username: string, pass: string, k: nat)
    requires k < |rows| && CredentialsMatch(rows[k], username, pass)
    requires forall j :: 0 <= j < k ==> !CredentialsMatch(rows[j], username, pass)
    ensures Authenticate(Some(rows), username, pass) == Some(SessionOf(rows[k]))
  {
    FindFirstIsFirst(rows, row => CredentialsMatch(row, username, pass), k);
  }

  // ---------------------------------------------------------------------
  // getUserConnections

  datatype ConnectionView = ConnectionView(
    sourceEmail: Option<string>, targetEmail: Option<string>, timestamp: Option<string>,
    sourceName: Option<string>, sourcePhone: Option<string>, note: Option<string>,
    status: string, direction: CT.Direction, name: string)

  /** Keys are `u.email.toLowerCase()`; a later user with the same key
      replaces an earlier one, as `Map.set` does. */
  function NameMap(users: seq<User>): map<string, Option<string>>
    requires forall i :: 0 <= i < |users| ==> users[i].email.Some?
  {
    ToMap(users, (u: User) => Some(EmailKey(u)), (u: User) => u.name)
  }

  function EmailKey(u: User): string {
    if u.email.Some? then Lower(u.email.value) else ""
  }

  /** Every registered e-mail is a key, and it maps to the name of the last
      user registered with it. */
  lemma NameMapLastWins(users: seq<User>, i: nat)
    requires forall j :: 0 <= j < |users| ==> users[j].email.Some?
    requires i < |users|
    requires forall j :: i < j < |users| ==> Lower(users[j].email.value) != Lower(users[i].email.value)
    ensures Lower(users[i].email.value) in NameMap(users)
    ensures NameMap(users)[Lower(users[i].email.value)] == users[i].name
  {
    assert forall j :: i < j < |users| ==> Some(EmailKey(users[j])) != Some(EmailKey(users[i]));
  }

  /** One Connections row as seen by `me`. */
  function View(row: Row, me: string, names: map<string, Option<string>>): (v: ConnectionView)
    ensures v.direction == CT.Incoming <==> NormCell(row, CT.TARGET) == Some(me)
    ensures v.sourceEmail == Cell(row, CT.SOURCE) && v.targetEmail == Cell(row, CT.TARGET)
    ensures v.status != "" && (NonEmpty(Cell(row, CT.STATUS)).Some? ==> v.status == row[CT.STATUS])
    ensures v.name != ""
  {
    var source, target := NormCell(row, CT.SOURCE), NormCell(row, CT.TARGET);
    var isTarget := target == Some(me);
    var other := if isTarget then source else target;
    ConnectionView(Cell(row, CT.SOURCE), Cell(row, CT.TARGET), Cell(row, CT.TIMESTAMP), Cell(row, CT.SOURCE_NAME),
                   Cell(row, CT.SOURCE_PHONE), Cell(row, CT.NOTE), Or(Cell(row, CT.STATUS), "Pending"),
                   if isTarget then CT.Incoming else CT.Outgoing,
                   CT.OtherName(names, other, isTarget, Cell(row, CT.SOURCE_NAME)))
  }

  function Views(sel: Table, me: string, names: map<string, Option<string>>): (r: seq<ConnectionView>)
    ensures |r| == |sel|
    ensures forall k :: 0 <= k < |sel| ==> r[k] == View(sel[k], me, names)
  {
    seq(|sel|, k requires 0 <= k < |sel| => View(sel[k], me, names))
  }

  /** `getUserConnections(email)`: `None` when the connection list is
      non-empty and a registered row has no e-mail (the lower-casing
      throws); otherwise the touching rows, newest first. */
  function UserConnections(conns: Table, userRows: Table, email: string): (r: Option<seq<ConnectionView>>)
    ensures |conns| == 0 ==> r == Some([])
    ensures r.None? <==> |conns| > 0 && !EmailsPresent(userRows)
    ensures r.Some? ==> |r.value| == |CT.Touching(conns, Norm(email))|
  {
    if |conns| == 0 then Some([])
    else if !EmailsPresent(userRows) then None
    else
      var users := AllUsers(userRows);
      var me := Norm(email);
      var sel := CT.Touching(conns, me);
      Some(Reverse(Views(sel, me, NameMap(users))))
  }

  /** Entry `k` of the answer is the view of the `k`-th touching row counted
      from the end of the sheet. */
  lemma UserConnectionsNewestFirst(conns: Table, userRows: Table, email: string, k: nat)
    requires EmailsPresent(userRows)
    requires k < |CT.Touching(conns, Norm(email))|
    ensures var sel := CT.Touching(conns, Norm(email));
      UserConnections(conns, userRows, email).value[k] == View(sel[|sel| - 1 - k], Norm(email), NameMap(AllUsers(userRows)))
  {
    var me := Norm(email);
    var sel := CT.Touching(conns, me);
    var views := Views(sel, me, NameMap(AllUsers(userRows)));
    assert |conns| > 0;
    assert UserConnections(conns, userRows, email).value == Reverse(views);
    assert Reverse(views)[k] == views[|sel| - 1 - k];
  }

  // ---------------------------------------------------------------------
  // searchUsers

  datatype SearchHit = SearchHit(name: Option<string>, selectedEvent: Option<string>, slug: Option<string>)

  /** The lower-cased name or e-mail (empty when absent) contains the
      lower-cased query. */
  predicate SearchMatch(u: User, query: string) {
    Contains(Lower(Or(u.name, "")), Lower(query)) || Contains(Lower(Or(u.email, "")), Lower(query))
  }

  function Matching(userRows: Table, query: string): (r: seq<User>)
    ensures forall i :: 0 <= i < |r| ==> r[i] in AllUsers(userRows) && SearchMatch(r[i], query)
    ensures forall u :: u in AllUsers(userRows) && SearchMatch(u, query) ==> u in r
  {
    Filter(AllUsers(userRows), u => SearchMatch(u, query))
  }

  /** `searchUsers(query)`: the first ten matching users, in sheet order,
      reduced to name, selected event and slug. */
  function SearchUsers(userRows: Table, query: string): (r: seq<SearchHit>)
    ensures |r| <= 10
    ensures |r| == if |Matching(userRows, query)| < 10 then |Matching(userRows, query)| else 10
    ensures forall k :: 0 <= k < |r| ==>
      var u := Matching(userRows, query)[k]; r[k] == SearchHit(u.name, u.selectedEvent, u.slug)
  {
    var found := Matching(userRows, query);
    Take(seq(|found|, k requires 0 <= k < |found| => SearchHit(found[k].name, found[k].selectedEvent, found[k].slug)), 10)
  }

  // ---------------------------------------------------------------------
  // getUser and getUserBySlug

  datatype Profile = Profile(
    id: Option<string>, name: Option<string>, email: Option<string>, phone: Option<string>, role: string,
    selectedEvent: Option<string>, posterTheme: Option<string>, transactionId: Option<string>,
    ieeeMembershipNumber: Option<string>, linkedin: Option<string>, slug: Option<string>,
    instagram: Option<string>, github: Option<string>, connections: nat)

  /** The public profile: no e-mail and no phone number. */
  datatype PublicProfile = PublicProfile(
    id: Option<string>, name: Option<string>, role: string, selectedEvent: Option<string>,
    linkedin: Option<string>, slug: Option<string>, instagram: Option<string>,
    github: Option<string>, posterTheme: Option<string>, connections: nat)

  predicate EmailMatch(row: Row, email: string) {
    TrimCell(row, EMAIL) == Some(Trim(email))
  }

  /** The profile `getUser` builds from a row and a connection count. */
  function ProfileOf(row: Row, connections: nat): Profile {
    Profile(Cell(row, EMAIL), Cell(row, NAME), Cell(row, EMAIL), Cell(row, PHONE), "user",
            Cell(row, SELECTED_EVENT), Cell(row, POSTER_THEME), Cell(row, TRANSACTION_ID),
            Cell(row, IEEE_MEMBERSHIP), Cell(row, LINKEDIN), Cell(row, SLUG),
            Cell(row, INSTAGRAM), Cell(row, GITHUB), connections)
  }

  /** `getConnectionsCount` as a caller sees it: 0 when the e-mail is absent
      (the count's own `catch` answers 0) or the read fails. */
  function CountFor(conns: Option<Table>, email: Option<string>): nat {
    if email.None? || conns.None? then 0 else |CT.Partners(conns.value, Norm(email.value))|
  }

  /** `getUser(email)`: the profile of the first row (the header included)
      whose trimmed e-mail equals the trimmed argument, with its connection
      count; `null` when no row matches. */
  method GetUser(fetched: Option<Table>, conns: Option<Table>, email: string) returns (r: Option<Profile>)
    ensures r.Some? <==> fetched.Some? && exists i :: 0 <= i < |fetched.value| && EmailMatch(fetched.value[i], email)
    ensures r.Some? ==> exists i :: (0 <= i < |fetched.value| && EmailMatch(fetched.value[i], email)
                                     && (forall j :: 0 <= j < i ==> !EmailMatch(fetched.value[j], email))
                                     && r.value == ProfileOf(fetched.value[i], CountFor(conns, Some(email))))
    ensures r.Some? ==> r.value.connections == (if conns.None? then 0 else |CT.Partners(conns.value, Norm(email))|)
    ensures r.Some? ==> r.value.role == "user" && r.value.email == r.value.id
    ensures r.Some? ==> r.value.email.Some? && Trim(r.value.email.value) == Trim(email)
  {
    if fetched.None? || |fetched.value| == 0 {
      return None;
    }
    var rows := fetched.value;
    var found := FindFirst(rows, row => EmailMatch(row, email));
    if found.None? {
      return None;
    }
    var userRow := rows[found.value];
    var connections := CT.CountConnections(conns, email);
    r := Some(Profile(Cell(userRow, EMAIL), Cell(userRow, NAME), Cell(userRow, EMAIL), Cell(userRow, PHONE), "user",
                      Cell(userRow, SELECTED_EVENT), Cell(userRow, POSTER_THEME), Cell(userRow, TRANSACTION_ID),
                      Cell(userRow, IEEE_MEMBERSHIP), Cell(userRow, LINKEDIN), Cell(userRow, SLUG),
                      Cell(userRow, INSTAGRAM), Cell(userRow, GITHUB), connections));
    assert r.value == ProfileOf(rows[found.value], CountFor(conns, Some(email)));
  }

  /** `row[at]?.trim() === slug.trim()`, where an undefined index reads
      `undefined` and so never matches. */
  predicate SlugMatch(row: Row, slug: string, at: Option<int>) {
    at.Some? && 0 <= at.value && TrimCell(row, at.value as nat) == Some(Trim(slug))
  }

  /** With `INDEX.SLUG` as written (undefined), no row ever matches a slug. */
  lemma SlugLookupAsWrittenNeverFinds(rows: Table, slug: string)
    ensures FindFirst(rows, row => SlugMatch(row, slug, SC.Index(SC.Slug))) == None
  {
    assert SC.Index(SC.Slug) == None;
  }

  /** The public profile `getUserBySlug` builds from a row and a count. */
  function PublicProfileOf(row: Row, connections: nat): PublicProfile {
    PublicProfile(Cell(row, EMAIL), Cell(row, NAME), "user", Cell(row, SELECTED_EVENT), Cell(row, LINKEDIN),
                  Cell(row, SLUG), Cell(row, INSTAGRAM), Cell(row, GITHUB), Cell(row, POSTER_THEME), connections)
  }

  /** `getUserBySlug(slug)` reading the slug from column Y: the public
      profile of the first row whose trimmed slug equals the trimmed
      argument, with the connection count of that row's e-mail (0 when the
      e-mail cell is absent, where the count's own error handling answers 0). */
  method GetUserBySlug(fetched: Option<Table>, conns: Option<Table>, slug: string) returns (r: Option<PublicProfile>)
    ensures r.Some? <==> fetched.Some? && exists i :: 0 <= i < |fetched.value| && SlugMatch(fetched.value[i], slug, Some(SLUG as int))
    ensures r.Some? ==> exists i :: (0 <= i < |fetched.value| && SlugMatch(fetched.value[i], slug, Some(SLUG as int))
                                     && (forall j :: 0 <= j < i ==> !SlugMatch(fetched.value[j], slug, Some(SLUG as int)))
                                     && r.value == PublicProfileOf(fetched.value[i], CountFor(conns, Cell(fetched.value[i], EMAIL))))
    ensures r.Some? ==> r.value.slug.Some? && Trim(r.value.slug.value) == Trim(slug)
    ensures r.Some? && (r.value.id.None? || conns.None?) ==> r.value.connections == 0
    ensures r.Some? && r.value.id.Some? && conns.Some? ==> r.value.connections == |CT.Partners(conns.value, Norm(r.value.id.value))|
  {
    if fetched.None? || |fetched.value| == 0 {
      return None;
    }
    var rows := fetched.value;
    var found := FindFirst(rows, row => SlugMatch(row, slug, Some(SLUG as int)));
    if found.None? {
      return None;
    }
    var userRow := rows[found.value];
    var email := Cell(userRow, EMAIL);
    var connectionsCount := 0;
    if email.Some? {
      connectionsCount := CT.CountConnections(conns, email.value);
    }
    r := Some(PublicProfile(email, Cell(userRow, NAME), "user", Cell(userRow, SELECTED_EVENT), Cell(userRow, LINKEDIN),
                            Cell(userRow, SLUG), Cell(userRow, INSTAGRAM), Cell(userRow, GITHUB),
                            Cell(userRow, POSTER_THEME), connectionsCount));
    assert r.value == PublicProfileOf(rows[found.value], CountFor(conns, email));
  }

  // ---------------------------------------------------------------------
  // getAllUsersWithConnectionCounts

  /** `Map<string, Set<string>>` keyed by trimmed, lower-cased e-mail; an
      absent cell gives the key `undefined`, here `None`. */
  type Graph = map<Option<string>, set<Option<string>>>

  /** `connectionsMap.get(x)?.size || 0` reads the set, or nothing. */
  function Peers(g: Graph, x: Option<string>): set<Option<string>> {
    if x in g then g[x] else {}
  }

  /** Creating `x`'s set if missing, then adding `y` to it. */
  function Link(g: Graph, x: Option<string>, y: Option<string>): (r: Graph)
    ensures Peers(r, x) == Peers(g, x) + {y}
    ensures forall z :: z != x ==> Peers(r, z) == Peers(g, z)
  {
    g[x := Peers(g, x) + {y}]
  }

  /** The directory's status test: trimmed and lower-cased "accepted". */
  predicate AcceptedAnyCase(row: Row) {
    NormCell(row, CT.STATUS) == Some("accepted")
  }

  /** One step of the `forEach` over the Connections rows: an accepted row
      links its two ends both ways, any other row changes nothing. */
  function AddRow(g: Graph, row: Row): Graph {
    if AcceptedAnyCase(row) then
      var source, target := NormCell(row, CT.SOURCE), NormCell(row, CT.TARGET);
      Link(Link(g, source, target), target, source)
    else g
  }

  /** The map after the whole `forEach`. */
  function ConnectionsMap(rows: Table): Graph {
    if rows == [] then map[] else AddRow(ConnectionsMap(rows[..|rows| - 1]), rows[|rows| - 1])
  }

  /** What one row adds to the set of `x`: the other end of an accepted row
      with `x` at one end. */
  function DirectoryPartner(row: Row, x: Option<string>): Option<Option<string>> {
    var source, target := NormCell(row, CT.SOURCE), NormCell(row, CT.TARGET);
    if !AcceptedAnyCase(row) then None
    else if source == x then Some(target)
    else if target == x then Some(source)
    else None
  }

  lemma AddRowPeers(g: Graph, row: Row, x: Option<string>)
    ensures Peers(AddRow(g, row), x) == Peers(g, x) + Found(DirectoryPartner(row, x))
  {
  }

  /** A row names `y` as the partner of `x` exactly when it names `x` as the
      partner of `y`. */
  lemma DirectoryPartnerSymmetric(row: Row, x: Option<string>, y: Option<string>)
    ensures DirectoryPartner(row, x) == Some(y) <==> DirectoryPartner(row, y) == Some(x)
  {
  }

  /** The set of `x` collects, row by row, the other ends of the accepted
      rows that have `x` at one end. */
  lemma {:induction false} PeersCollect(rows: Table, x: Option<string>)
    ensures Peers(ConnectionsMap(rows), x) == Collect(rows, row => DirectoryPartner(row, x))
  {
    if rows != [] {
      var init, last := rows[..|rows| - 1], rows[|rows| - 1];
      var f := row => DirectoryPartner(row, x);
      PeersCollect(init, x);
      AddRowPeers(ConnectionsMap(init), last, x);
      CollectPrefix(rows, f, |rows| - 1);
      assert rows[..|rows| - 1 + 1] == rows;
    }
  }

  /** The directory map is symmetric: A's set holds B exactly when B's set
      holds A. */
  lemma PeersSymmetric(rows: Table, x: Option<string>, y: Option<string>)
    ensures y in Peers(ConnectionsMap(rows), x) <==> x in Peers(ConnectionsMap(rows), y)
  {
    var f, g := row => DirectoryPartner(row, x), row => DirectoryPartner(row, y);
    PeersCollect(rows, x);
    PeersCollect(rows, y);
    if y in Collect(rows, f) {
      var i :| 0 <= i < |rows| && f(rows[i]) == Some(y);
      DirectoryPartnerSymmetric(rows[i], x, y);
      assert g(rows[i]) == Some(x);
    }
    if x in Collect(rows, g) {
      var i :| 0 <= i < |rows| && g(rows[i]) == Some(x);
      DirectoryPartnerSymmetric(rows[i], x, y);
      assert f(rows[i]) == Some(y);
    }
  }

  /** The `forEach` body on an accepted row: create the two sets when
      missing, then add each end to the other's set. */
  lemma AcceptedStep(g: Graph, source: Option<string>, target: Option<string>)
    ensures var g1 := if source !in g then g[source := {}] else g;
            var g2 := if target !in g1 then g1[target := {}] else g1;
            var g3 := g2[source := g2[source] + {target}];
            g3[target := g3[target] + {source}] == Link(Link(g, source, target), target, source)
  {
  }

  /** `connectionsMap` built one row at a time, as the `forEach` does. */
  method BuildConnectionsMap(connRows: Table) returns (connectionsMap: Graph)
    ensures connectionsMap == ConnectionsMap(connRows)
  {
    connectionsMap := map[];
    for i := 0 to |connRows|
      invariant connectionsMap == ConnectionsMap(connRows[..i])
    {
      var row := connRows[i];
      ghost var before := connectionsMap;
      var source, target, status := NormCell(row, CT.SOURCE), NormCell(row, CT.TARGET), NormCell(row, CT.STATUS);
      if status == Some("accepted") {
        if source !in connectionsMap {
          connectionsMap := connectionsMap[source := {}];
        }
        if target !in connectionsMap {
          connectionsMap := connectionsMap[target := {}];
        }
        connectionsMap := connectionsMap[source := connectionsMap[source] + {target}];
        connectionsMap := connectionsMap[target := connectionsMap[target] + {source}];
        AcceptedStep(before, source, target);
      }
      assert connectionsMap == AddRow(before, row);
      assert connRows[..i + 1][..i] == connRows[..i];
    }
    assert connRows[..|connRows|] == connRows;
  }

  datatype DirectoryEntry = DirectoryEntry(
    id: Option<string>, rowIndex: nat, name: Option<string>, email: Option<string>,
    selectedEvent: Option<string>, connections: nat, posterTheme: Option<string>, slug: Option<string>)

  /** The directory entry of one registered row: its e-mail doubles as id,
      then its name, selected event, poster theme and slug (read from Y). */
  function EntryOf(row: Row, rowIndex: nat, connections: nat): DirectoryEntry {
    DirectoryEntry(Cell(row, EMAIL), rowIndex, Cell(row, NAME), Cell(row, EMAIL), Cell(row, SELECTED_EVENT),
                   connections, Cell(row, POSTER_THEME), Cell(row, SLUG))
  }

  /** `getAllUsersWithConnectionCounts`: one entry per registered row after
      the header, in sheet order, at sheet row position + 2, counting the
      set its normalised e-mail keys (0 when there is none). */
  method Directory(userRows: Table, connRows: Table) returns (entries: seq<DirectoryEntry>)
    ensures |entries| == if |userRows| == 0 then 0 else |userRows| - 1
    ensures forall i :: 0 <= i < |entries| ==>
      entries[i] == EntryOf(userRows[i + 1], i + 2, |Peers(ConnectionsMap(connRows), NormCell(userRows[i + 1], EMAIL))|)
    ensures forall i :: 0 <= i < |entries| ==>
      && entries[i].rowIndex == i + 2
      && entries[i].email == Cell(userRows[i + 1], EMAIL)
      && entries[i].id == entries[i].email
      && entries[i].name == Cell(userRows[i + 1], NAME)
      && entries[i].slug == Cell(userRows[i + 1], SLUG)
  {
    var connectionsMap := BuildConnectionsMap(connRows);
    if |userRows| == 0 {
      return [];
    }
    entries := seq(|userRows| - 1, i requires 0 <= i < |userRows| - 1 =>
      var row := userRows[i + 1];
      DirectoryEntry(Cell(row, EMAIL), i + 2, Cell(row, NAME), Cell(row, EMAIL), Cell(row, SELECTED_EVENT),
                     |Peers(connectionsMap, NormCell(row, EMAIL))|, Cell(row, POSTER_THEME), Cell(row, SLUG)));
  }

  /** The directory and `getConnectionsCount` can disagree: a row whose
      status is "accepted" in lower case counts in the directory only. */
  lemma DirectoryCountsLowerCaseAccepted(a: string, b: string)
    requires CT.Clean(a) && CT.Clean(b) && a != b
    ensures var rows := [[a, b, "", "", "", "", "accepted"]];
      && |CT.Partners(rows, a)| == 0
      && |Peers(ConnectionsMap(rows), Some(a))| == 1
  {
    LowerCaseAcceptedNotCounted(a, b);
    LowerCaseAcceptedInDirectory(a, b);
  }

  lemma LowerCaseAcceptedNotCounted(a: string, b: string)
    ensures CT.Partners([[a, b, "", "", "", "", "accepted"]], a) == {}
  {
    var row := [a, b, "", "", "", "", "accepted"];
    var rows := [row];
    assert Trim("accepted") == "accepted";
    assert CT.RowPartner(row, a) == None;
    CollectPrefix(rows, r => CT.RowPartner(r, a), 0);
    assert rows[..1] == rows;
  }

  lemma LowerCaseAcceptedInDirectory(a: string, b: string)
    requires CT.Clean(a) && CT.Clean(b) && a != b
    ensures Peers(ConnectionsMap([[a, b, "", "", "", "", "accepted"]]), Some(a)) == {Some(b)}
  {
    var row := [a, b, "", "", "", "", "accepted"];
    var rows := [row];
    assert Norm(a) == a && Norm(b) == b;
    assert Trim("accepted") == "accepted" && Lower("accepted") == "accepted";
    assert DirectoryPartner(row, Some(a)) == Some(Some(b));
    AddRowPeers(map[], row, Some(a));
    assert rows[..0] == [];
  }

  // ---------------------------------------------------------------------
  // backfillSlugs

  /** `row[at] && row[at].trim().length > 0`; an undefined index reads
      `undefined`, so such a row has no slug. */
  predicate HasSlug(row: Row, at: Option<int>) {
    at.Some? && 0 <= at.value < |row| && Trim(row[at.value]) != ""
  }

  /** The number of rows after the header without a slug. */
  function BlankSlugs(rows: Table, at: Option<int>): (n: nat)
    ensures n <= if |rows| == 0 then 0 else |rows| - 1
  {
    if |rows| <= 1 then 0
    else BlankSlugs(rows[..|rows| - 1], at) + (if HasSlug(rows[|rows| - 1], at) then 0 else 1)
  }

  /** One row after the backfill: kept when it has a slug, otherwise given
      `slug` in column Y. */
  function BackfillRow(row: Row, slug: string, at: Option<int>): Row {
    if HasSlug(row, at) then row else SetCell(row, SLUG, slug)
  }

  /** The registration tab after the backfill: the header and every row that
      has a slug are kept, the others get `slugs[i]` in column Y. */
  function Backfilled(rows: Table, slugs: seq<string>, at: Option<int>): (r: Table)
    requires |slugs| >= |rows|
    ensures |r| == |rows|
  {
    seq(|rows|, i requires 0 <= i < |rows| => if i == 0 then rows[0] else BackfillRow(rows[i], slugs[i], at))
  }

  lemma BackfilledPrefix(rows: Table, slugs: seq<string>, at: Option<int>, i: nat)
    requires 1 <= i < |rows| <= |slugs|
    ensures Backfilled(rows[..i + 1], slugs, at) + rows[i + 1..]
         == (Backfilled(rows[..i], slugs, at) + rows[i..])[i := BackfillRow(rows[i], slugs[i], at)]
  {
    var a := Backfilled(rows[..i + 1], slugs, at) + rows[i + 1..];
    var b := (Backfilled(rows[..i], slugs, at) + rows[i..])[i := BackfillRow(rows[i], slugs[i], at)];
    assert |a| == |b|;
    forall j | 0 <= j < |a| ensures a[j] == b[j] {
      if j > i {
        assert a[j] == rows[j];
      }
    }
  }

  /** `backfillSlugs`, reading and writing the slug in column Y; `slugs[i]`
      stands for the slug `generateSlug` makes when it reaches row `i`. */
  method BackfillSlugs(book: Spreadsheet, slugs: seq<string>) returns (updatedCount: nat)
    requires |slugs| >= |book.responses|
    modifies book
    ensures updatedCount == BlankSlugs(old(book.responses), Some(SLUG as int))
    ensures book.responses == Backfilled(old(book.responses), slugs, Some(SLUG as int))
    ensures book.connections == old(book.connections)
  {
    var rows := book.responses;
    var at := Some(SLUG as int);
    if |rows| == 0 {
      return 0;
    }
    updatedCount := 0;
    assert book.responses == Backfilled(rows[..1], slugs, at) + rows[1..];
    for i := 1 to |rows|
      invariant book.responses == Backfilled(rows[..i], slugs, at) + rows[i..]
      invariant updatedCount == BlankSlugs(rows[..i], at)
      invariant book.connections == old(book.connections)
    {
      var row := rows[i];
      assert rows[..i + 1][..i] == rows[..i];
      BackfilledPrefix(rows, slugs, at, i);
      assert book.responses[i] == row;
      var hasSlug := SLUG < |row| && Trim(row[SLUG]) != "";
      if !hasSlug {
        var rowIndex := i + 1;
        book.responses := WriteCell(book.responses, rowIndex, SLUG, slugs[i]);
        updatedCount := updatedCount + 1;
      }
    }
    assert rows[..|rows|] == rows;
  }

  /** With non-blank slugs, every row after the header has a slug after the
      backfill, so running it again writes nothing and answers 0. */
  lemma BackfillIdempotent(rows: Table, slugs: seq<string>)
    requires |slugs| >= |rows|
    requires forall i :: 0 <= i < |slugs| ==> Trim(slugs[i]) != ""
    ensures var r := Backfilled(rows, slugs, Some(SLUG as int));
      && (forall i :: 1 <= i < |r| ==> HasSlug(r[i], Some(SLUG as int)))
      && BlankSlugs(r, Some(SLUG as int)) == 0
  {
    var r := Backfilled(rows, slugs, Some(SLUG as int));
    NoBlankSlugs(r, Some(SLUG as int));
  }

  lemma {:induction false} NoBlankSlugs(rows: Table, at: Option<int>)
    requires forall i :: 1 <= i < |rows| ==> HasSlug(rows[i], at)
    ensures BlankSlugs(rows, at) == 0
  {
    if |rows| > 1 {
      var init := rows[..|rows| - 1];
      assert forall i :: 1 <= i < |init| ==> init[i] == rows[i];
      NoBlankSlugs(init, at);
    }
  }

  /** As written, `INDEX.SLUG` is undefined, so no row counts as having a
      slug: every row after the header is counted and overwritten. */
  lemma {:induction false} BackfillAsWrittenRewritesEveryRow(rows: Table, slugs: seq<string>)
    requires |slugs| >= |rows| >= 1
    ensures BlankSlugs(rows, SC.Index(SC.Slug)) == |rows| - 1
    ensures forall i :: 1 <= i < |rows| ==> Backfilled(rows, slugs, SC.Index(SC.Slug))[i] == SetCell(rows[i], SLUG, slugs[i])
  {
    if |rows| > 1 {
      BackfillAsWrittenRewritesEveryRow(rows[..|rows| - 1], slugs);
    }
  }

  /** A concrete sheet: a header and one row whose slug is "abc". The
      backfill as written counts and overwrites that row; reading column Y
      leaves it alone. */
  lemma BackfillAsWrittenExample(slugs: seq<string>)
    requires |slugs| >= 2
    ensures var rows := [[], seq(24, _ => "") + ["abc"]];
      && BlankSlugs(rows, SC.Index(SC.Slug)) == 1
      && BlankSlugs(rows, Some(SLUG as int)) == 0
      && Backfilled(rows, slugs, Some(SLUG as int)) == rows
  {
    var rows: Table := [[], seq(24, _ => "") + ["abc"]];
    assert Trim("abc") == "abc";
    BackfillAsWrittenRewritesEveryRow(rows, slugs);
    assert HasSlug(rows[1], Some(SLUG as int));
    var r := Backfilled(rows, slugs, Some(SLUG as int));
    assert r[0] == rows[0] && r[1] == rows[1];
  }
}

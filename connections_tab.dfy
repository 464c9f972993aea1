/** The "Connections" tab, columns A to G: source e-mail, target e-mail,
    timestamp, source name, source phone, note, status. A row is a directed
    connection request; its status is "Pending", "Accepted" or "Rejected".

    The operations here are the ones the server service and the Next.js
    library implement with the same code: the partner count, the status
    lookup between two people, adding a request and answering one. */
module ConnectionsTab {
  import opened Text
  import opened Cells
  import opened Seqs
  import opened Workbook

  const SOURCE: nat := 0
  const TARGET: nat := 1
  const TIMESTAMP: nat := 2
  const SOURCE_NAME: nat := 3
  const SOURCE_PHONE: nat := 4
  const NOTE: nat := 5
  const STATUS: nat := 6

  datatype Direction = Incoming | Outgoing

  /** The answer to a request: the `'Accepted' | 'Rejected'` parameter. */
  datatype Decision = Accepted | Rejected

  function DecisionText(d: Decision): string {
    match d
    case Accepted => "Accepted"
    case Rejected => "Rejected"
  }

  /** The row has `me` (already trimmed and lower-cased) as its source or
      target, compared trimmed and lower-cased. */
  predicate Touches(row: Row, me: string) {
    NormCell(row, SOURCE) == Some(me) || NormCell(row, TARGET) == Some(me)
  }

  // ---------------------------------------------------------------------
  // getConnectionsCount

  /** `p` is a partner of `me` through this row: the row touches `me`, its
      trimmed status is exactly "Accepted", and `p` is the other end, which
      is present and non-empty. */
  predicate AcceptedPartner(row: Row, me: string, p: string) {
    && Touches(row, me)
    && TrimCell(row, STATUS) == Some("Accepted")
    && p != ""
    && (if NormCell(row, SOURCE) == Some(me) then NormCell(row, TARGET) else NormCell(row, SOURCE)) == Some(p)
  }

  /** The partner one row contributes, if any. */
  function RowPartner(row: Row, me: string): (r: Option<string>)
    ensures r.Some? ==> AcceptedPartner(row, me, r.value)
    ensures forall p :: AcceptedPartner(row, me, p) ==> r == Some(p)
  {
    if !Touches(row, me) || TrimCell(row, STATUS) != Some("Accepted") then None
    else
      var partner := if NormCell(row, SOURCE) == Some(me) then NormCell(row, TARGET) else NormCell(row, SOURCE);
      if partner.Some? && partner.value != "" then partner else None
  }

  /** The set of distinct partners of `me` over a table. */
  function Partners(rows: Table, me: string): set<string> {
    Collect(rows, row => RowPartner(row, me))
  }

  /** A partner is counted exactly when some accepted row pairs them with `me`. */
  lemma PartnersMembership(rows: Table, me: string, p: string)
    ensures p in Partners(rows, me) <==> exists i :: 0 <= i < |rows| && AcceptedPartner(rows[i], me, p)
  {
    if p in Partners(rows, me) {
      var i :| 0 <= i < |rows| && RowPartner(rows[i], me) == Some(p);
    }
  }

  /** `getConnectionsCount(email)`: the number of distinct partners; a failed
      read (`fetched == None`) counts 0. */
  method CountConnections(fetched: Option<Table>, email: string) returns (n: nat)
    ensures fetched.None? ==> n == 0
    ensures fetched.Some? ==> n == |Partners(fetched.value, Norm(email))|
  {
    if fetched.None? || |fetched.value| == 0 {
      return 0;
    }
    var rows := fetched.value;
    var myEmail := Norm(email);
    var uniquePartners: set<string> := {};
    for i := 0 to |rows|
      invariant uniquePartners == Partners(rows[..i], myEmail)
    {
      var row := rows[i];
      CollectPrefix(rows, row => RowPartner(row, myEmail), i);
      var source, target, status := NormCell(row, SOURCE), NormCell(row, TARGET), TrimCell(row, STATUS);
      if source != Some(myEmail) && target != Some(myEmail) {
        assert RowPartner(row, myEmail) == None;
        continue;
      }
      if status != Some("Accepted") {
        assert RowPartner(row, myEmail) == None;
        continue;
      }
      var partner := if source == Some(myEmail) then target else source;
      if partner.Some? && partner.value != "" {
        assert RowPartner(row, myEmail) == partner;
        uniquePartners := uniquePartners + {partner.value};
      } else {
        assert RowPartner(row, myEmail) == None;
      }
    }
    assert rows[..|rows|] == rows;
    n := |uniquePartners|;
  }

  // ---------------------------------------------------------------------
  // getConnectionStatus

  /** The row connects `x` and `y` in either direction. */
  predicate Links(row: Row, x: string, y: string) {
    var s, t := NormCell(row, SOURCE), NormCell(row, TARGET);
    (s == Some(x) && t == Some(y)) || (s == Some(y) && t == Some(x))
  }

  /** `getConnectionStatus(a, b)`: "None" when the table is empty or no
      row links `a` and `b`; otherwise decided by the first linking row. */
  function StatusBetween(rows: Table, a: string, b: string): (r: string)
    ensures (forall i :: 0 <= i < |rows| ==> !Links(rows[i], Norm(a), Norm(b))) ==> r == "None"
  {
    var x, y := Norm(a), Norm(b);
    if |rows| == 0 then "None"
    else
      match FindFirst(rows, row => Links(row, x, y))
      case None => "None"
      case Some(k) => Or(Cell(rows[k], STATUS), "Pending")
  }

  /** When row `k` is the first linking `a` and `b`, the status is its status
      cell, or "Pending" when that cell is absent or empty. */
  lemma StatusOfFirstLink(rows: Table, a: string, b: string, k: nat)
    requires k < |rows| && Links(rows[k], Norm(a), Norm(b))
    requires forall j :: 0 <= j < k ==> !Links(rows[j], Norm(a), Norm(b))
    ensures StatusBetween(rows, a, b) == Or(Cell(rows[k], STATUS), "Pending")
  {
    var x, y := Norm(a), Norm(b);
    FindFirstIsFirst(rows, row => Links(row, x, y), k);
  }

  /** The status between two people does not depend on who asks. */
  lemma StatusSymmetric(rows: Table, a: string, b: string)
    ensures StatusBetween(rows, a, b) == StatusBetween(rows, b, a)
  {
    var x, y := Norm(a), Norm(b);
    FindFirstSame(rows, row => Links(row, x, y), row => Links(row, y, x));
  }

  // ---------------------------------------------------------------------
  // addConnection

  /** The row `addConnection` appends: absent optional values become empty
      cells and the status starts as "Pending". */
  function NewConnectionRow(source: Option<string>, target: string, timestamp: string,
                            name: Option<string>, phone: Option<string>, note: Option<string>): (r: Row)
    ensures |r| == 7
    ensures r[SOURCE] == Or(source, "") && r[TARGET] == target && r[TIMESTAMP] == timestamp
    ensures r[SOURCE_NAME] == Or(name, "") && r[SOURCE_PHONE] == Or(phone, "") && r[NOTE] == Or(note, "")
    ensures r[STATUS] == "Pending"
  {
    [Or(source, ""), target, timestamp, Or(name, ""), Or(phone, ""), Or(note, ""), "Pending"]
  }

  /** `addConnection`: appends one pending request; the clock is a parameter. */
  method AddConnection(book: Spreadsheet, source: Option<string>, target: string, timestamp: string,
                       name: Option<string>, phone: Option<string>, note: Option<string>) returns (ok: bool)
    modifies book
    ensures ok
    ensures book.connections == old(book.connections) + [NewConnectionRow(source, target, timestamp, name, phone, note)]
    ensures book.responses == old(book.responses)
  {
    book.connections := book.connections + [NewConnectionRow(source, target, timestamp, name, phone, note)];
    ok := true;
  }

  // ---------------------------------------------------------------------
  // updateConnectionStatus

  /** The row is the request from `source` to `target`, compared trimmed
      and case-sensitively. */
  predicate RespondMatch(row: Row, source: string, target: string) {
    TrimCell(row, SOURCE) == Some(Trim(source)) && TrimCell(row, TARGET) == Some(Trim(target))
  }

  function RespondIndex(rows: Table, source: string, target: string): Option<nat> {
    FindFirst(rows, row => RespondMatch(row, source, target))
  }

  /** The table after answering the request from `source` to `target`: only
      the status cell (column G) of the first matching row changes, and
      nothing changes when no row matches. */
  function Responded(rows: Table, source: string, target: string, d: Decision): (r: Table)
    ensures |r| == |rows|
    ensures RespondIndex(rows, source, target).None? ==> r == rows
    ensures forall k :: 0 <= k < |rows| && RespondIndex(rows, source, target) != Some(k) ==> r[k] == rows[k]
    ensures RespondIndex(rows, source, target).Some? ==>
      var k := RespondIndex(rows, source, target).value;
      && r[k] == SetCell(rows[k], STATUS, DecisionText(d))
      && RespondMatch(rows[k], source, target)
      && (forall j :: 0 <= j < k ==> !RespondMatch(rows[j], source, target))
  {
    match RespondIndex(rows, source, target)
    case None => rows
    case Some(k) => WriteCell(rows, k + 1, STATUS, DecisionText(d))
  }

  /** `updateConnectionStatus`: finds the first matching row and rewrites its
      status cell at sheet row index + 1; reports whether a row matched. */
  method UpdateConnectionStatus(book: Spreadsheet, source: string, target: string, d: Decision) returns (ok: bool)
    modifies book
    ensures ok <==> exists i :: 0 <= i < |old(book.connections)| && RespondMatch(old(book.connections)[i], source, target)
    ensures book.connections == Responded(old(book.connections), source, target, d)
    ensures book.responses == old(book.responses)
  {
    var rows := book.connections;
    var rowIndex := RespondIndex(rows, source, target);
    if rowIndex.Some? {
      var sheetRow := rowIndex.value + 1;
      book.connections := WriteCell(rows, sheetRow, STATUS, DecisionText(d));
      ok := true;
    } else {
      ok := false;
    }
  }

  // ---------------------------------------------------------------------
  // The request / respond / count workflow

  /** An address as stored by a well-behaved client: non-empty, already
      trimmed and lower-case. */
  predicate Clean(e: string) {
    e != "" && Trim(e) == e && Lower(e) == e
  }

  /** Sending the same request twice and then accepting it makes each side
      count the other, the first only once, and the status read back is
      "Accepted". */
  lemma RequestTwiceThenAccept(rows0: Table, a: string, b: string, t1: string, t2: string)
    requires Clean(a) && Clean(b) && a != b
    requires forall i :: 0 <= i < |rows0| ==> !Touches(rows0[i], a)
    ensures var r := NewConnectionRow(Some(a), b, t1, None, None, None);
      var rows1 := rows0 + [r, NewConnectionRow(Some(a), b, t2, None, None, None)];
      var rows2 := Responded(rows1, a, b, Accepted);
      && Partners(rows2, a) == {b}
      && |Partners(rows2, a)| == 1
      && a in Partners(rows2, b)
      && StatusBetween(rows2, a, b) == "Accepted"
  {
    var r1 := NewConnectionRow(Some(a), b, t1, None, None, None);
    var r2 := NewConnectionRow(Some(a), b, t2, None, None, None);
    FirstNewRequestAnswered(rows0, a, b, t1, r2);
    var rows2 := rows0 + [SetCell(r1, STATUS, "Accepted"), r2];
    AnsweredRowPartners(rows0, a, b, t1, r2);
    AnsweredRowStatus(rows0, a, b, t1, r2);
  }

  /** After the answer, `a`'s only partner is `b`, and `b` counts `a`. */
  lemma AnsweredRowPartners(rows0: Table, a: string, b: string, t1: string, r2: Row)
    requires Clean(a) && Clean(b) && a != b
    requires forall i :: 0 <= i < |rows0| ==> !Touches(rows0[i], a)
    requires TrimCell(r2, STATUS) != Some("Accepted")
    ensures var rows2 := rows0 + [SetCell(NewConnectionRow(Some(a), b, t1, None, None, None), STATUS, "Accepted"), r2];
      Partners(rows2, a) == {b} && a in Partners(rows2, b)
  {
    var accepted := SetCell(NewConnectionRow(Some(a), b, t1, None, None, None), STATUS, "Accepted");
    var rows2 := rows0 + [accepted, r2];
    var n := |rows0|;
    AcceptedRequestPartners(a, b, t1);
    var f := row => RowPartner(row, a);
    CollectConcat(rows0, [accepted, r2], f);
    CollectConcat([accepted], [r2], f);
    assert Collect(rows0, f) == {} by {
      forall i | 0 <= i < |rows0| ensures f(rows0[i]) == None {
        assert !Touches(rows0[i], a);
      }
    }
    assert Collect([accepted], f) == {b};
    assert Collect([r2], f) == {};
    var g := row => RowPartner(row, b);
    assert g(rows2[n]) == Some(a);
  }

  /** An accepted request from `a` to `b` makes each the other's partner. */
  lemma AcceptedRequestPartners(a: string, b: string, t1: string)
    requires Clean(a) && Clean(b) && a != b
    ensures var accepted := SetCell(NewConnectionRow(Some(a), b, t1, None, None, None), STATUS, "Accepted");
      RowPartner(accepted, a) == Some(b) && RowPartner(accepted, b) == Some(a)
  {
    assert Trim("Accepted") == "Accepted";
    assert Norm(a) == a && Norm(b) == b;
  }

  /** After the answer, the first row linking `a` and `b` is the accepted one. */
  lemma AnsweredRowStatus(rows0: Table, a: string, b: string, t1: string, r2: Row)
    requires Clean(a) && Clean(b)
    requires forall i :: 0 <= i < |rows0| ==> !Touches(rows0[i], a)
    ensures StatusBetween(rows0 + [SetCell(NewConnectionRow(Some(a), b, t1, None, None, None), STATUS, "Accepted"), r2], a, b) == "Accepted"
  {
    var accepted := SetCell(NewConnectionRow(Some(a), b, t1, None, None, None), STATUS, "Accepted");
    var rows2 := rows0 + [accepted, r2];
    var n := |rows0|;
    assert Norm(a) == a && Norm(b) == b;
    forall j | 0 <= j < n ensures !Links(rows2[j], Norm(a), Norm(b)) {
      assert rows2[j] == rows0[j];
    }
    StatusOfFirstLink(rows2, a, b, n);
  }

  /** The first of two fresh requests from `a` to `b` is the one answered. */
  lemma FirstNewRequestAnswered(rows0: Table, a: string, b: string, t1: string, r2: Row)
    requires Clean(a) && Clean(b)
    requires forall i :: 0 <= i < |rows0| ==> !Touches(rows0[i], a)
    ensures var r1 := NewConnectionRow(Some(a), b, t1, None, None, None);
      Responded(rows0 + [r1, r2], a, b, Accepted) == rows0 + [SetCell(r1, STATUS, "Accepted"), r2]
  {
    var r1 := NewConnectionRow(Some(a), b, t1, None, None, None);
    var rows1 := rows0 + [r1, r2];
    var n := |rows0|;
    assert Norm(a) == a;
    forall i | 0 <= i < n ensures !RespondMatch(rows1[i], a, b) {
      assert rows1[i] == rows0[i];
    }
    assert RespondMatch(rows1[n], a, b);
    FindFirstIsFirst(rows1, row => RespondMatch(row, a, b), n);
    var rows2 := Responded(rows1, a, b, Accepted);
    assert |rows2| == n + 2;
    assert forall i :: 0 <= i < n + 2 && i != n ==> rows2[i] == rows1[i];
  }

  /** Answering a request does not always change what the status lookup
      reports: an earlier request in the opposite direction is found first. */
  lemma EarlierReverseRowShadowsAnswer(a: string, b: string)
    requires Clean(a) && Clean(b) && a != b
    ensures var rows := [[b, a, "", "", "", "", "Pending"], [a, b, "", "", "", "", "Pending"]];
      && Responded(rows, a, b, Accepted)[1][STATUS] == "Accepted"
      && StatusBetween(Responded(rows, a, b, Accepted), a, b) == "Pending"
  {
    var rows := [[b, a, "", "", "", "", "Pending"], [a, b, "", "", "", "", "Pending"]];
    assert Norm(a) == a && Norm(b) == b;
    assert !RespondMatch(rows[0], a, b);
    FindFirstIsFirst(rows, row => RespondMatch(row, a, b), 1);
    var rows2 := Responded(rows, a, b, Accepted);
    assert rows2[0] == rows[0];
    StatusOfFirstLink(rows2, a, b, 0);
  }

  /** The name shown for the other party: the registered name, else the
      stored source name on an incoming row, else "Anonymous". */
  function OtherName(names: map<string, Option<string>>, other: Option<string>, incoming: bool, storedName: Option<string>): (r: string)
    ensures r != ""
    ensures other.Some? && other.value in names && NonEmpty(names[other.value]).Some? ==> r == names[other.value].value
    ensures (other.None? || other.value !in names || NonEmpty(names[other.value]).None?) && incoming && NonEmpty(storedName).Some?
      ==> r == storedName.value
    ensures (other.None? || other.value !in names || NonEmpty(names[other.value]).None?) && (!incoming || NonEmpty(storedName).None?)
      ==> r == "Anonymous"
  {
    var known := if other.Some? && other.value in names then names[other.value] else None;
    Or(known, Or(if incoming then storedName else None, "Anonymous"))
  }

  /** The Connections rows with `me` at either end, in sheet order. */
  function Touching(rows: Table, me: string): (r: Table)
    ensures forall i :: 0 <= i < |r| ==> r[i] in rows && Touches(r[i], me)
    ensures forall i :: 0 <= i < |rows| && Touches(rows[i], me) ==> rows[i] in r
  {
    Filter(rows, row => Touches(row, me))
  }
}

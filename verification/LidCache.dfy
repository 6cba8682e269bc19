/** The PN/LID caches in front of `lid_map`, as values: what each operation does to the
    table and the two cache maps, the invariant that ties them together, and why every
    operation keeps it.  Module LidMap holds the class whose methods do this in place. */
module LidCache {
  import opened Sql
  import opened LidTable

  const PN_SERVER := "s.whatsapp.net"
  const LID_SERVER := "lid"

  datatype JID = JID(user: string, device: nat, server: string)

  const EMPTY_JID := JID("", 0, "")

  datatype Row = Row(lid: string, pn: string)

  /** The JID that a single lookup builds from the user it found. */
  function ToJid(user: string, device: nat, server: string): JID {
    if user == "" then EMPTY_JID else JID(user, device, server)
  }

  /** Which column a single lookup starts from. */
  datatype Direction = PnToLid | LidToPn

  /** A snapshot of the table and of the in-memory state.  A cached "" means "no such row". */
  datatype Store = Store(table: Table, pnToLid: map<string, string>, lidToPn: map<string, string>, filled: bool)
  {
    function Source(dir: Direction): map<string, string> {
      if dir.PnToLid? then pnToLid else lidToPn
    }

    function Target(dir: Direction): map<string, string> {
      if dir.PnToLid? then lidToPn else pnToLid
    }

    function WithCaches(dir: Direction, source: map<string, string>, target: map<string, string>): Store {
      if dir.PnToLid? then this.(pnToLid := source, lidToPn := target)
      else this.(lidToPn := source, pnToLid := target)
    }
  }

  /** The answer a lookup would get from the table alone. */
  ghost function Query(t: Table, dir: Direction, user: string): string {
    if dir.PnToLid? then LidOf(t, user) else PnOf(t, user)
  }

  /** Map access as Go does it: "" for a missing key. */
  function Get(m: map<string, string>, key: string): string {
    if key in m then m[key] else ""
  }

  // ---------------------------------------------------------------- the invariant

  /** Every cache entry, positive or negative, is what the table says. */
  ghost predicate EntriesAgree(s: Store) {
    && (forall pn :: pn in s.pnToLid ==> s.pnToLid[pn] == LidOf(s.table, pn))
    && (forall lid :: lid in s.lidToPn ==> s.lidToPn[lid] == PnOf(s.table, lid))
  }

  /** Positive entries come in pairs, one in each map. */
  ghost predicate EntriesPaired(s: Store) {
    && (forall pn :: pn in s.pnToLid && s.pnToLid[pn] != "" ==> Get(s.lidToPn, s.pnToLid[pn]) == pn)
    && (forall lid :: lid in s.lidToPn && s.lidToPn[lid] != "" ==> Get(s.pnToLid, s.lidToPn[lid]) == lid)
  }

  /** The `cacheFilled` flag promises that every row is cached. */
  ghost predicate FilledMeansAll(s: Store) {
    s.filled ==> forall l :: l in s.table ==> l in s.lidToPn && s.table[l] in s.pnToLid
  }

  /** Agreement with the table, positive or negative, of the two entries of one user. */
  ghost predicate AgreesAt(s: Store, user: string) {
    && (user in s.pnToLid ==> s.pnToLid[user] == LidOf(s.table, user))
    && (user in s.lidToPn ==> s.lidToPn[user] == PnOf(s.table, user))
  }

  /** Positive entries of one user have their mirror image in the other map. */
  ghost predicate PairedAt(s: Store, user: string) {
    && (Get(s.pnToLid, user) != "" ==> Get(s.lidToPn, s.pnToLid[user]) == user)
    && (Get(s.lidToPn, user) != "" ==> Get(s.pnToLid, s.lidToPn[user]) == user)
  }

  /** The promise of the flag for one user. */
  ghost predicate FilledAt(s: Store, user: string) {
    s.filled ==> (user in s.table ==> user in s.lidToPn) && ((exists l :: Has(s.table, l, user)) ==> user in s.pnToLid)
  }

  ghost predicate RightAt(s: Store, user: string) {
    AgreesAt(s, user) && PairedAt(s, user) && FilledAt(s, user)
  }

  /** The caches are right about every user outside `bad`. */
  ghost predicate RightExcept(s: Store, bad: set<string>) {
    UniquePn(s.table) && forall user :: user !in bad ==> RightAt(s, user)
  }

  /** The caches are right about every user that has a name.  Nothing is said about the
      entries of the empty user, which put after put may spoil. */
  ghost predicate RightForUsers(s: Store) {
    RightExcept(s, {""})
  }

  /** The caches are right, whatever users the table has. */
  ghost predicate CachesRight(s: Store) {
    UniquePn(s.table) && EntriesAgree(s) && EntriesPaired(s) && FilledMeansAll(s)
  }

  ghost predicate WellFormed(t: Table) {
    UniquePn(t) && NonEmptyUsers(t)
  }

  ghost predicate Coherent(s: Store) {
    CachesRight(s) && NonEmptyUsers(s.table)
  }

  lemma CachesRightAt(s: Store, user: string)
    requires CachesRight(s)
    ensures RightAt(s, user)
  {
  }

  lemma RightEverywhere(s: Store)
    requires RightExcept(s, {})
    ensures CachesRight(s)
  {
    assert EntriesAgree(s) by {
      assert forall user :: user in s.pnToLid || user in s.lidToPn ==> RightAt(s, user);
    }
    assert EntriesPaired(s) by {
      assert forall user :: user in s.pnToLid || user in s.lidToPn ==> RightAt(s, user);
    }
    forall l | s.filled && l in s.table
      ensures l in s.lidToPn && s.table[l] in s.pnToLid
    {
      assert RightAt(s, l) && RightAt(s, s.table[l]) && Has(s.table, l, s.table[l]);
    }
  }

  /** Being right user by user is being right. */
  lemma RightIsExceptNone(s: Store)
    ensures CachesRight(s) <==> RightExcept(s, {})
  {
    if CachesRight(s) {
      forall user
        ensures RightAt(s, user)
      {
        CachesRightAt(s, user);
      }
    } else if RightExcept(s, {}) {
      RightEverywhere(s);
    }
  }

  // ---------------------------------------------------------------- caching one row

  function CacheRow(s: Store, row: Row): Store {
    s.(pnToLid := s.pnToLid[row.pn := row.lid], lidToPn := s.lidToPn[row.lid := row.pn])
  }

  lemma CacheRowRightAt(s: Store, row: Row, user: string)
    requires UniquePn(s.table) && Has(s.table, row.lid, row.pn) && RightAt(s, user)
    ensures RightAt(CacheRow(s, row), user)
  {
    LookupsAtRow(s.table, row.lid, row.pn);
    AnswerIsRow(s.table, user);
  }

  lemma CacheRowKeepsRight(s: Store, bad: set<string>, row: Row)
    requires RightExcept(s, bad) && Has(s.table, row.lid, row.pn)
    ensures RightExcept(CacheRow(s, row), bad)
  {
    forall user | user !in bad
      ensures RightAt(CacheRow(s, row), user)
    {
      CacheRowRightAt(s, row, user);
    }
  }

  // ---------------------------------------------------------------- single lookups

  predicate DecidedByCache(s: Store, dir: Direction, user: string) {
    user in s.Source(dir) || s.filled
  }

  /** What a lookup answers; None when the database was needed and failed. */
  ghost function LookupAnswer(s: Store, dir: Direction, user: string, fault: bool): Option<string> {
    if DecidedByCache(s, dir, user) then Some(Get(s.Source(dir), user))
    else if fault then None
    else Some(Query(s.table, dir, user))
  }

  /** Caching the answer `target` for `user`, and its mirror image when there is one. */
  function Remember(s: Store, dir: Direction, user: string, target: string): Store {
    s.WithCaches(dir, s.Source(dir)[user := target],
                 if target != "" then s.Target(dir)[target := user] else s.Target(dir))
  }

  ghost function LookupNext(s: Store, dir: Direction, user: string, fault: bool): Store {
    if DecidedByCache(s, dir, user) || fault then s
    else Remember(s, dir, user, Query(s.table, dir, user))
  }

  lemma AnswerIsRow(t: Table, user: string)
    ensures LidOf(t, user) != "" ==> Has(t, LidOf(t, user), user)
    ensures PnOf(t, user) != "" ==> Has(t, user, PnOf(t, user))
  {
  }

  /** A lookup that does not fail answers exactly what the table says. */
  lemma LookupExact(s: Store, dir: Direction, user: string, fault: bool)
    requires UniquePn(s.table) && RightAt(s, user)
    ensures LookupAnswer(s, dir, user, fault) ==
            if fault && !DecidedByCache(s, dir, user) then None else Some(Query(s.table, dir, user))
  {
    AnswerIsRow(s.table, user);
  }

  /** Caching an absence touches no positive entry. */
  lemma AbsenceRightAt(s: Store, dir: Direction, user: string, other: string)
    requires UniquePn(s.table) && Query(s.table, dir, user) == "" && RightAt(s, other)
    ensures RightAt(Remember(s, dir, user, ""), other)
  {
    AnswerIsRow(s.table, other);
    if Get(s.lidToPn, other) != "" {
      LookupsAtRow(s.table, other, s.lidToPn[other]);
    }
  }

  lemma RememberKeepsRight(s: Store, bad: set<string>, dir: Direction, user: string)
    requires RightExcept(s, bad)
    ensures RightExcept(Remember(s, dir, user, Query(s.table, dir, user)), bad)
  {
    var target := Query(s.table, dir, user);
    if target == "" {
      forall other | other !in bad
        ensures RightAt(Remember(s, dir, user, ""), other)
      {
        AbsenceRightAt(s, dir, user, other);
      }
    } else {
      AnswerIsRow(s.table, user);
      var row := if dir.PnToLid? then Row(target, user) else Row(user, target);
      assert Remember(s, dir, user, target) == CacheRow(s, row);
      CacheRowKeepsRight(s, bad, row);
    }
  }

  /** A lookup keeps the caches right about whom they were right about. */
  lemma LookupKeepsRight(s: Store, bad: set<string>, dir: Direction, user: string, fault: bool)
    requires RightExcept(s, bad)
    ensures RightExcept(LookupNext(s, dir, user, fault), bad)
    ensures LookupNext(s, dir, user, fault).table == s.table
  {
    RememberKeepsRight(s, bad, dir, user);
  }

  lemma LookupKeepsCoherence(s: Store, dir: Direction, user: string, fault: bool)
    requires Coherent(s)
    ensures Coherent(LookupNext(s, dir, user, fault))
    ensures LookupNext(s, dir, user, fault).table == s.table
  {
    RightIsExceptNone(s);
    LookupKeepsRight(s, {}, dir, user, fault);
    RightIsExceptNone(LookupNext(s, dir, user, fault));
  }

  // ---------------------------------------------------------------- scans

  /** Caching every row that a query delivers, in order. */
  function Scan(s: Store, rows: seq<Row>): Store {
    if rows == [] then s
    else CacheRow(Scan(s, rows[..|rows| - 1]), rows[|rows| - 1])
  }

  /** What the database may deliver for a query over the rows whose PN is wanted: rows of the
      table, and unless it fails on the way every one of them. */
  ghost predicate Delivers(t: Table, wanted: set<string>, rows: seq<Row>, fault: bool) {
    && (forall r :: r in rows ==> Has(t, r.lid, r.pn) && r.pn in wanted)
    && (!fault ==> forall l :: l in t && t[l] in wanted ==> Row(l, t[l]) in rows)
  }

  lemma {:induction false} ScanKeepsRight(s: Store, bad: set<string>, rows: seq<Row>)
    requires RightExcept(s, bad) && forall r :: r in rows ==> Has(s.table, r.lid, r.pn)
    ensures RightExcept(Scan(s, rows), bad) && Scan(s, rows).table == s.table && Scan(s, rows).filled == s.filled
  {
    if rows != [] {
      var front, last := rows[..|rows| - 1], rows[|rows| - 1];
      assert rows == front + [last];
      ScanKeepsRight(s, bad, front);
      CacheRowKeepsRight(Scan(s, front), bad, last);
    }
  }

  lemma {:induction false} ScanCaches(s: Store, rows: seq<Row>)
    ensures forall r :: r in rows ==> r.pn in Scan(s, rows).pnToLid && r.lid in Scan(s, rows).lidToPn
  {
    if rows != [] {
      ScanCaches(s, rows[..|rows| - 1]);
      assert rows == rows[..|rows| - 1] + [rows[|rows| - 1]];
    }
  }

  /** The caches of s' have the rows in both directions, and otherwise the entries of s. */
  ghost predicate RowsCached(s: Store, rows: seq<Row>, s': Store) {
    && (forall r :: r in rows ==> r.pn in s'.pnToLid && s'.pnToLid[r.pn] == r.lid)
    && (forall r :: r in rows ==> r.lid in s'.lidToPn && s'.lidToPn[r.lid] == r.pn)
    && (forall u :: (forall r :: r in rows ==> r.pn != u) ==>
          (u in s'.pnToLid <==> u in s.pnToLid) && (u in s.pnToLid ==> s'.pnToLid[u] == s.pnToLid[u]))
    && (forall u :: (forall r :: r in rows ==> r.lid != u) ==>
          (u in s'.lidToPn <==> u in s.lidToPn) && (u in s.lidToPn ==> s'.lidToPn[u] == s.lidToPn[u]))
  }

  /** A scan caches the delivered rows and leaves all other entries alone. */
  lemma {:induction false} ScanExact(s: Store, rows: seq<Row>)
    requires UniquePn(s.table) && forall r :: r in rows ==> Has(s.table, r.lid, r.pn)
    ensures RowsCached(s, rows, Scan(s, rows))
  {
    if rows != [] {
      var front, last := rows[..|rows| - 1], rows[|rows| - 1];
      assert rows == front + [last];
      ScanExact(s, front);
      forall r | r in front
        ensures r.pn == last.pn <==> r.lid == last.lid
      {
        LookupsAtRow(s.table, r.lid, r.pn);
        LookupsAtRow(s.table, last.lid, last.pn);
      }
    }
  }

  lemma ScanKeepsCoherence(s: Store, rows: seq<Row>)
    requires Coherent(s) && forall r :: r in rows ==> Has(s.table, r.lid, r.pn)
    ensures Coherent(Scan(s, rows)) && Scan(s, rows).table == s.table && Scan(s, rows).filled == s.filled
    ensures forall r :: r in rows ==> r.pn in Scan(s, rows).pnToLid && r.lid in Scan(s, rows).lidToPn
  {
    RightIsExceptNone(s);
    ScanKeepsRight(s, {}, rows);
    ScanCaches(s, rows);
    RightIsExceptNone(Scan(s, rows));
  }

  /** FillCache: scan everything; the flag records whether the scan got to the end. */
  function FillNext(s: Store, rows: seq<Row>, fault: bool): Store {
    Scan(s, rows).(filled := !fault)
  }

  /** Setting the flag when every row is cached, or clearing it. */
  lemma FlagKeepsRight(s: Store, bad: set<string>, flag: bool)
    requires RightExcept(s, bad)
    requires flag ==> forall l :: l in s.table ==> l in s.lidToPn && s.table[l] in s.pnToLid
    ensures RightExcept(s.(filled := flag), bad)
  {
    forall user | user !in bad
      ensures RightAt(s.(filled := flag), user)
    {
      assert RightAt(s, user);
    }
  }

  lemma FillKeepsRight(s: Store, bad: set<string>, rows: seq<Row>, fault: bool)
    requires RightExcept(s, bad) && Delivers(s.table, s.table.Values, rows, fault)
    ensures RightExcept(FillNext(s, rows, fault), bad) && FillNext(s, rows, fault).table == s.table
  {
    ScanKeepsRight(s, bad, rows);
    ScanCaches(s, rows);
    forall l | !fault && l in s.table
      ensures l in Scan(s, rows).lidToPn && s.table[l] in Scan(s, rows).pnToLid
    {
      assert Row(l, s.table[l]) in rows;
    }
    FlagKeepsRight(Scan(s, rows), bad, !fault);
  }

  lemma FillKeepsCoherence(s: Store, rows: seq<Row>, fault: bool)
    requires Coherent(s) && Delivers(s.table, s.table.Values, rows, fault)
    ensures Coherent(FillNext(s, rows, fault)) && FillNext(s, rows, fault).table == s.table
  {
    RightIsExceptNone(s);
    FillKeepsRight(s, {}, rows, fault);
    RightIsExceptNone(FillNext(s, rows, fault));
  }

  // ---------------------------------------------------------------- bulk lookup

  predicate Hit(s: Store, pn: JID) {
    pn.server == PN_SERVER && Get(s.pnToLid, pn.user) != ""
  }

  /** A PN that the bulk lookup has to ask the database about. */
  predicate Missing(s: Store, pn: JID) {
    pn.server == PN_SERVER && Get(s.pnToLid, pn.user) == "" && !s.filled
  }

  ghost function MissingUsers(s: Store, pns: seq<JID>): set<string> {
    set j | j in pns && Missing(s, j) :: j.user
  }

  ghost predicate InRows(rows: seq<Row>, pn: string) {
    exists r :: r in rows && r.pn == pn
  }

  ghost function RowLid(rows: seq<Row>, pn: string): string
    requires InRows(rows, pn)
  {
    var r :| r in rows && r.pn == pn; r.lid
  }

  /** The result map: cache hits keep the device, rows from the database drop it. */
  ghost function BulkAnswer(s: Store, pns: seq<JID>, rows: seq<Row>): map<JID, JID> {
    map j | j in pns && (Hit(s, j) || (Missing(s, j) && InRows(rows, j.user))) ::
      if Hit(s, j) then JID(s.pnToLid[j.user], j.device, LID_SERVER)
      else JID(RowLid(rows, j.user), 0, LID_SERVER)
  }

  ghost function BulkNext(s: Store, rows: seq<Row>): Store {
    Scan(s, rows)
  }

  /** What a cache-free store would answer: the LID user of every PN that has a row. */
  ghost function BulkReference(t: Table, pns: seq<JID>): map<JID, string> {
    map j | j in pns && j.server == PN_SERVER && LidOf(t, j.user) != "" :: LidOf(t, j.user)
  }

  ghost function Users(m: map<JID, JID>): map<JID, string> {
    map j | j in m :: m[j].user
  }

  lemma BulkExactAt(s: Store, pns: seq<JID>, rows: seq<Row>, j: JID)
    requires Coherent(s) && Delivers(s.table, MissingUsers(s, pns), rows, false)
    requires j in pns && j.server == PN_SERVER
    ensures j in BulkAnswer(s, pns, rows) <==> LidOf(s.table, j.user) != ""
    ensures j in BulkAnswer(s, pns, rows) ==> BulkAnswer(s, pns, rows)[j].user == LidOf(s.table, j.user)
  {
    if Missing(s, j) {
      var lid := LidOf(s.table, j.user);
      if lid != "" {
        assert Has(s.table, lid, j.user);
        assert j.user in MissingUsers(s, pns);
        assert Row(lid, j.user) in rows;
      }
      if InRows(rows, j.user) {
        LookupsAtRow(s.table, RowLid(rows, j.user), j.user);
      }
    } else {
      CachesRightAt(s, j.user);
      LookupExact(s, PnToLid, j.user, false);
    }
  }

  lemma BulkDevicesAt(s: Store, pns: seq<JID>, rows: seq<Row>, j: JID)
    requires j in BulkAnswer(s, pns, rows)
    ensures BulkAnswer(s, pns, rows)[j].server == LID_SERVER
    ensures BulkAnswer(s, pns, rows)[j].device == if Get(s.pnToLid, j.user) != "" then j.device else 0
  {
  }

  lemma SameUsers(answer: map<JID, JID>, reference: map<JID, string>)
    requires forall j :: j in answer <==> j in reference
    requires forall j :: j in answer ==> answer[j].user == reference[j]
    ensures Users(answer) == reference
  {
  }

  /** For every mix of hits, negative entries, misses and duplicates, the bulk lookup that
      reaches its end has exactly the reference keys and users.  Hits keep the device of the
      request and misses drop it. */
  lemma BulkExact(s: Store, pns: seq<JID>, rows: seq<Row>)
    requires Coherent(s) && Delivers(s.table, MissingUsers(s, pns), rows, false)
    ensures Users(BulkAnswer(s, pns, rows)) == BulkReference(s.table, pns)
    ensures forall j :: j in BulkAnswer(s, pns, rows) ==>
              && BulkAnswer(s, pns, rows)[j].server == LID_SERVER
              && BulkAnswer(s, pns, rows)[j].device == if Get(s.pnToLid, j.user) != "" then j.device else 0
  {
    var answer, reference := BulkAnswer(s, pns, rows), BulkReference(s.table, pns);
    forall j
      ensures j in answer <==> j in reference
      ensures j in answer ==> answer[j].user == reference[j]
    {
      if j in pns && j.server == PN_SERVER {
        BulkExactAt(s, pns, rows, j);
      }
    }
    SameUsers(answer, reference);
    forall j | j in answer
      ensures answer[j].server == LID_SERVER
      ensures answer[j].device == if Get(s.pnToLid, j.user) != "" then j.device else 0
    {
      BulkDevicesAt(s, pns, rows, j);
    }
  }

  /** Single and bulk lookup give every PN the same user.  They give it the same JID exactly if
      the entry was cached or there is no device to lose; a PN that bulk lookup leaves out gets
      the empty JID. */
  lemma BulkAgreesWithSingle(s: Store, pns: seq<JID>, rows: seq<Row>, j: JID)
    requires Coherent(s) && Delivers(s.table, MissingUsers(s, pns), rows, false)
    requires j in pns && j.server == PN_SERVER
    ensures LookupAnswer(s, PnToLid, j.user, false)
         == Some(if j in BulkAnswer(s, pns, rows) then BulkAnswer(s, pns, rows)[j].user else "")
    ensures LookupAnswer(s, PnToLid, j.user, false).Some?
    ensures var single := ToJid(LookupAnswer(s, PnToLid, j.user, false).value, j.device, LID_SERVER);
            if j in BulkAnswer(s, pns, rows)
            then BulkAnswer(s, pns, rows)[j] == single <==> Get(s.pnToLid, j.user) != "" || j.device == 0
            else single == JID("", 0, "")
  {
    BulkExactAt(s, pns, rows, j);
    CachesRightAt(s, j.user);
    LookupExact(s, PnToLid, j.user, false);
  }
}

/** MigratePNToLID as a call on the store: one transaction over three tables and a marker
    for phone numbers that have been migrated; and why the order of migrations is free. */
module RekeyStore {
  import opened Sql
  import opened Rekey

  datatype Tables = Tables(sessions: Table, identities: Table, senderKeys: Table)

  /** The order in which the database delivers the selected rows of each table. */
  datatype Orders = Orders(sessions: seq<Key>, identities: seq<Key>, senderKeys: seq<Key>)

  ghost predicate OrdersFit(t: Tables, our: string, pn: string, o: Orders) {
    && Enumerates(o.sessions, Selected(t.sessions, our, pn))
    && Enumerates(o.identities, Selected(t.identities, our, pn))
    && Enumerates(o.senderKeys, Selected(t.senderKeys, our, pn))
  }

  ghost predicate AllClean(t: Tables, our: string, pn: string) {
    CleanRows(t.sessions, our, pn) && CleanRows(t.identities, our, pn) && CleanRows(t.senderKeys, our, pn)
  }

  ghost predicate AllRekeyed(t: Tables, our: string, pn: string, lid: string, t': Tables) {
    && Rekeyed(t.sessions, our, pn, lid, t'.sessions)
    && Rekeyed(t.identities, our, pn, lid, t'.identities)
    && Rekeyed(t.senderKeys, our, pn, lid, t'.senderKeys)
  }

  function RekeyAll(t: Tables, our: string, pn: string, lid: string, o: Orders): Tables
    requires (forall k :: k in o.sessions ==> k in t.sessions)
    requires (forall k :: k in o.identities ==> k in t.identities)
    requires (forall k :: k in o.senderKeys ==> k in t.senderKeys)
  {
    Tables(RekeyTable(t.sessions, our, pn, lid, o.sessions),
           RekeyTable(t.identities, our, pn, lid, o.identities),
           RekeyTable(t.senderKeys, our, pn, lid, o.senderKeys))
  }

  predicate AllMovable(t: Tables, our: string, pn: string, lid: string) {
    && Movable(t.sessions.Keys, our, pn, lid)
    && Movable(t.identities.Keys, our, pn, lid)
    && Movable(t.senderKeys.Keys, our, pn, lid)
  }

  lemma AllCleanMovable(t: Tables, our: string, pn: string, lid: string)
    requires AllClean(t, our, pn) && Apart(pn, lid)
    ensures AllMovable(t, our, pn, lid)
  {
    CleanIsMovable(t.sessions, our, pn, lid);
    CleanIsMovable(t.identities, our, pn, lid);
    CleanIsMovable(t.senderKeys, our, pn, lid);
  }

  lemma RekeyAllMoves(t: Tables, our: string, pn: string, lid: string, o: Orders)
    requires AllMovable(t, our, pn, lid) && OrdersFit(t, our, pn, o)
    ensures AllRekeyed(t, our, pn, lid, RekeyAll(t, our, pn, lid, o))
  {
    RekeyMoves(t.sessions, our, pn, lid, o.sessions);
    RekeyMoves(t.identities, our, pn, lid, o.identities);
    RekeyMoves(t.senderKeys, our, pn, lid, o.senderKeys);
  }

  lemma AllRowsMoved(t: Tables, our: string, pn: string, lid: string, t': Tables)
    requires AllRekeyed(t, our, pn, lid, t')
    ensures RowsMoved(t.sessions, our, pn, lid, t'.sessions)
    ensures RowsMoved(t.identities, our, pn, lid, t'.identities)
    ensures RowsMoved(t.senderKeys, our, pn, lid, t'.senderKeys)
  {
    RekeyedMovesRows(t.sessions, our, pn, lid, t'.sessions);
    RekeyedMovesRows(t.identities, our, pn, lid, t'.identities);
    RekeyedMovesRows(t.senderKeys, our, pn, lid, t'.senderKeys);
  }

  class SQLStore {
    const jid: string
    var tables: Tables
    var migratedPNSessionsCache: set<string>

    constructor (jid: string, tables: Tables)
      ensures this.jid == jid && this.tables == tables && migratedPNSessionsCache == {}
    {
      this.jid := jid;
      this.tables := tables;
      migratedPNSessionsCache := {};
    }

    /** The transaction: each table is re-keyed by an insert and a delete, all or nothing.  Step 0 is
        begin, steps 1 to 6 are the statements, step 7 is commit. */
    method MigrateTables(pnSignal: string, lidSignal: string, orders: Orders, fault: Fault) returns (ok: bool)
      requires OrdersFit(tables, jid, pnSignal, orders)
      modifies this`tables
      ensures ok <==> fault.NoFault? || fault.step > 7
      ensures tables == if ok then RekeyAll(old(tables), jid, pnSignal, lidSignal, orders) else old(tables)
    {
      if Fails(fault, 0) {
        return false;
      }
      var snapshot := tables;
      if Fails(fault, 1) {
        return false;
      }
      tables := tables.(sessions := InsertReplaced(tables.sessions, orders.sessions, pnSignal, lidSignal));
      if Fails(fault, 2) {
        tables := snapshot;
        return false;
      }
      tables := tables.(sessions := DeleteAll(tables.sessions, jid, pnSignal));
      if Fails(fault, 3) {
        tables := snapshot;
        return false;
      }
      tables := tables.(identities := InsertReplaced(tables.identities, orders.identities, pnSignal, lidSignal));
      if Fails(fault, 4) {
        tables := snapshot;
        return false;
      }
      tables := tables.(identities := DeleteAll(tables.identities, jid, pnSignal));
      if Fails(fault, 5) {
        tables := snapshot;
        return false;
      }
      tables := tables.(senderKeys := InsertReplaced(tables.senderKeys, orders.senderKeys, pnSignal, lidSignal));
      if Fails(fault, 6) {
        tables := snapshot;
        return false;
      }
      tables := tables.(senderKeys := DeleteAll(tables.senderKeys, jid, pnSignal));
      if Fails(fault, 7) {
        tables := snapshot;
        return false;
      }
      ok := true;
    }

    /** The marker is set first and stays set, so a migration that fails is not tried again. */
    method MigratePNToLID(pnSignal: string, lidSignal: string, orders: Orders, fault: Fault) returns (ok: bool)
      requires OrdersFit(tables, jid, pnSignal, orders)
      modifies this
      ensures migratedPNSessionsCache == old(migratedPNSessionsCache) + {pnSignal}
      ensures ok <==> pnSignal in old(migratedPNSessionsCache) || fault.NoFault? || fault.step > 7
      ensures pnSignal in old(migratedPNSessionsCache) || !ok ==> tables == old(tables)
      ensures pnSignal !in old(migratedPNSessionsCache) && ok ==>
                && RowsReplaced(old(tables).sessions, jid, pnSignal, lidSignal, tables.sessions)
                && RowsReplaced(old(tables).identities, jid, pnSignal, lidSignal, tables.identities)
                && RowsReplaced(old(tables).senderKeys, jid, pnSignal, lidSignal, tables.senderKeys)
                && tables == RekeyAll(old(tables), jid, pnSignal, lidSignal, orders)
      ensures pnSignal !in old(migratedPNSessionsCache) && ok &&
              AllMovable(old(tables), jid, pnSignal, lidSignal) ==>
                && AllRekeyed(old(tables), jid, pnSignal, lidSignal, tables)
                && RowsMoved(old(tables).sessions, jid, pnSignal, lidSignal, tables.sessions)
                && RowsMoved(old(tables).identities, jid, pnSignal, lidSignal, tables.identities)
                && RowsMoved(old(tables).senderKeys, jid, pnSignal, lidSignal, tables.senderKeys)
    {
      if pnSignal in migratedPNSessionsCache {
        return true;
      }
      migratedPNSessionsCache := migratedPNSessionsCache + {pnSignal};
      RekeyReplaces(tables.sessions, jid, pnSignal, lidSignal, orders.sessions);
      RekeyReplaces(tables.identities, jid, pnSignal, lidSignal, orders.identities);
      RekeyReplaces(tables.senderKeys, jid, pnSignal, lidSignal, orders.senderKeys);
      if AllMovable(tables, jid, pnSignal, lidSignal) {
        RekeyAllMoves(tables, jid, pnSignal, lidSignal, orders);
        AllRowsMoved(tables, jid, pnSignal, lidSignal, RekeyAll(tables, jid, pnSignal, lidSignal, orders));
      }
      ok := MigrateTables(pnSignal, lidSignal, orders, fault);
    }
  }

  // ---------------------------------------------------------------- many migrations

  datatype Migration = Migration(pn: string, lid: string)

  /** Distinct phone numbers, distinct LIDs, no LID that is a phone number of the set, and
      users without colons. */
  ghost predicate Independent(ms: set<Migration>) {
    && (forall m :: m in ms ==> ':' !in m.pn && ':' !in m.lid && m.pn != "")
    && (forall m, n :: m in ms && n in ms ==> m.pn != n.lid)
    && (forall m, n :: m in ms && n in ms && m != n ==> m.pn != n.pn && m.lid != n.lid)
  }

  function At(t: Table, k: Key): Option<Bytes> {
    if k in t then Some(t[k]) else None
  }

  ghost predicate MovesTo(m: Migration, t: Table, our: string, k: Key) {
    k.our == our && OfUser(k.id, m.lid) && Source(m, k) in t
  }

  /** The phone number's address with the device of k. */
  function Source(m: Migration, k: Key): Key {
    if OfUser(k.id, m.lid) then k.(id := WithUser(k.id, m.lid, m.pn)) else k
  }

  /** What a set of migrations leaves at one key, in terms of the original table alone. */
  ghost function ClosedAt(t: Table, our: string, ms: set<Migration>, k: Key): Option<Bytes> {
    if exists m :: m in ms && k.our == our && OfUser(k.id, m.pn) then None
    else if exists m :: m in ms && MovesTo(m, t, our, k) then
      var m :| m in ms && MovesTo(m, t, our, k);
      Some(t[Source(m, k)])
    else At(t, k)
  }

  lemma OneUser(id: string, u: string, v: string)
    requires OfUser(id, u) && OfUser(id, v) && ':' !in u && ':' !in v
    ensures u == v
  {
    assert id[|u|] == (u + ":")[|u|] && id[|v|] == (v + ":")[|v|];
    assert forall i :: 0 <= i < |u| ==> id[i] == (u + ":")[i] == u[i] && u[i] in u;
    assert forall i :: 0 <= i < |v| ==> id[i] == (v + ":")[i] == v[i] && v[i] in v;
    assert |u| == |v|;
    assert u == id[..|u|] && v == id[..|v|];
  }

  /** Source undoes Target and the other way round. */
  lemma SourceInverse(m: Migration, k: Key)
    ensures OfUser(k.id, m.lid) ==> OfUser(Source(m, k).id, m.pn) && Target(Source(m, k), m.pn, m.lid) == k
    ensures OfUser(k.id, m.pn) ==> OfUser(Target(k, m.pn, m.lid).id, m.lid) && Source(m, Target(k, m.pn, m.lid)) == k
  {
    if OfUser(k.id, m.lid) {
      SwapTwice(k.id, m.lid, m.pn);
    }
    if OfUser(k.id, m.pn) {
      SwapTwice(k.id, m.pn, m.lid);
    }
  }

  lemma SwapTwice(id: string, u: string, v: string)
    requires OfUser(id, u)
    ensures OfUser(WithUser(id, u, v), v) && WithUser(WithUser(id, u, v), v, u) == id
  {
    var rest := id[|u|..];
    assert rest[0] == (u + ":")[|u|] == ':';
    assert rest == ":" + rest[1..] && id == u + rest;
    assert v + rest == v + ":" + rest[1..];
    assert (v + rest)[|v|..] == rest;
  }

  /** One re-keying, key by key. */
  lemma RekeyedAt(t: Table, our: string, m: Migration, t': Table, k: Key)
    requires ':' !in m.pn && ':' !in m.lid && m.pn != m.lid && Rekeyed(t, our, m.pn, m.lid, t')
    ensures At(t', k) == if k.our == our && OfUser(k.id, m.pn) then None
                         else if MovesTo(m, t, our, k) then Some(t[Source(m, k)])
                         else At(t, k)
  {
    assert k in UserRows(t', our, m.pn) <==> k in t' && k.our == our && OfUser(k.id, m.pn);
    SourceInverse(m, k);
    if k.our == our && OfUser(k.id, m.pn) {
    } else if MovesTo(m, t, our, k) {
      assert Source(m, k) in UserRows(t, our, m.pn);
    } else {
      forall p | p in UserRows(t, our, m.pn)
        ensures Target(p, m.pn, m.lid) != k
      {
        SourceInverse(m, p);
      }
    }
  }

  /** An address of one migration belongs to no other migration of an independent set. */
  lemma NoOtherUser(ms: set<Migration>, m: Migration, n: Migration, id: string)
    requires m !in ms && n in ms && Independent(ms + {m})
    requires OfUser(id, m.pn) || OfUser(id, m.lid)
    ensures !OfUser(id, n.pn) && !OfUser(id, n.lid)
  {
    assert m in ms + {m} && n in ms + {m};
    var u := if OfUser(id, m.pn) then m.pn else m.lid;
    if OfUser(id, n.pn) {
      OneUser(id, u, n.pn);
    }
    if OfUser(id, n.lid) {
      OneUser(id, u, n.lid);
    }
  }

  /** So the closed form of the others is the original table there. */
  lemma OthersLeaveAlone(t: Table, our: string, ms: set<Migration>, m: Migration, k: Key)
    requires m !in ms && Independent(ms + {m})
    requires OfUser(k.id, m.pn) || OfUser(k.id, m.lid)
    ensures ClosedAt(t, our, ms, k) == At(t, k)
    ensures forall n :: n in ms ==> !MovesTo(n, t, our, k)
  {
    forall n | n in ms
      ensures !OfUser(k.id, n.pn) && !OfUser(k.id, n.lid)
    {
      NoOtherUser(ms, m, n, k.id);
    }
  }

  ghost predicate IsClosed(t: Table, our: string, ms: set<Migration>, t1: Table) {
    forall x :: At(t1, x) == ClosedAt(t, our, ms, x)
  }

  /** Doing one more independent migration extends the closed form. */
  lemma ClosedStepAt(t: Table, our: string, ms: set<Migration>, m: Migration, t1: Table, t2: Table, k: Key)
    requires m !in ms && Independent(ms + {m}) && IsClosed(t, our, ms, t1)
    requires Rekeyed(t1, our, m.pn, m.lid, t2)
    ensures At(t2, k) == ClosedAt(t, our, ms + {m}, k)
  {
    var all := ms + {m};
    assert m in all;
    RekeyedAt(t1, our, m, t2, k);
    SourceInverse(m, k);
    if k.our == our && OfUser(k.id, m.pn) {
    } else if k.our == our && OfUser(k.id, m.lid) {
      OthersLeaveAlone(t, our, ms, m, k);
      OthersLeaveAlone(t, our, ms, m, Source(m, k));
      assert MovesTo(m, t1, our, k) <==> MovesTo(m, t, our, k);
      forall n | n in ms
        ensures !OfUser(k.id, n.pn)
      {
        NoOtherUser(ms, m, n, k.id);
      }
    } else {
      assert forall n :: n in all && MovesTo(n, t, our, k) ==> n in ms;
      ClosedIgnores(t, our, ms, m, k);
    }
  }

  lemma ClosedIgnores(t: Table, our: string, ms: set<Migration>, m: Migration, k: Key)
    requires Independent(ms + {m})
    requires k.our != our || (!OfUser(k.id, m.pn) && !OfUser(k.id, m.lid))
    ensures ClosedAt(t, our, ms + {m}, k) == ClosedAt(t, our, ms, k)
  {
    var all := ms + {m};
    if n :| n in all && k.our == our && OfUser(k.id, n.pn) {
      assert n in ms;
    } else if n :| n in all && MovesTo(n, t, our, k) {
      assert n in ms;
      forall n1, n2 | n1 in all && MovesTo(n1, t, our, k) && n2 in all && MovesTo(n2, t, our, k)
        ensures n1 == n2
      {
        OneUser(k.id, n1.lid, n2.lid);
      }
    }
  }

  lemma ClosedStep(t: Table, our: string, ms: set<Migration>, m: Migration, t1: Table, t2: Table)
    requires m !in ms && Independent(ms + {m}) && IsClosed(t, our, ms, t1)
    requires Rekeyed(t1, our, m.pn, m.lid, t2)
    ensures IsClosed(t, our, ms + {m}, t2)
  {
    forall k
      ensures At(t2, k) == ClosedAt(t, our, ms + {m}, k)
    {
      ClosedStepAt(t, our, ms, m, t1, t2, k);
    }
  }

  /** Rows of a phone number not yet migrated are still clean. */
  lemma CleanLater(t: Table, our: string, ms: set<Migration>, m: Migration, t1: Table)
    requires m !in ms && Independent(ms + {m}) && IsClosed(t, our, ms, t1)
    requires CleanRows(t, our, m.pn)
    ensures CleanRows(t1, our, m.pn)
  {
    forall k | k in UserRows(t1, our, m.pn)
      ensures k in UserRows(t, our, m.pn)
    {
      OthersLeaveAlone(t, our, ms, m, k);
      assert At(t1, k) == At(t, k);
    }
  }

  ghost predicate AllClosed(t: Tables, our: string, ms: set<Migration>, t1: Tables) {
    && IsClosed(t.sessions, our, ms, t1.sessions)
    && IsClosed(t.identities, our, ms, t1.identities)
    && IsClosed(t.senderKeys, our, ms, t1.senderKeys)
  }

  lemma StoreStep(t: Tables, our: string, ms: set<Migration>, m: Migration, t1: Tables, o: Orders)
    requires m !in ms && Independent(ms + {m}) && AllClosed(t, our, ms, t1)
    requires AllClean(t, our, m.pn) && OrdersFit(t1, our, m.pn, o)
    ensures AllClosed(t, our, ms + {m}, RekeyAll(t1, our, m.pn, m.lid, o))
  {
    var t2 := RekeyAll(t1, our, m.pn, m.lid, o);
    assert AllRekeyed(t1, our, m.pn, m.lid, t2) by {
      CleanLater(t.sessions, our, ms, m, t1.sessions);
      CleanLater(t.identities, our, ms, m, t1.identities);
      CleanLater(t.senderKeys, our, ms, m, t1.senderKeys);
      assert m in ms + {m};
      ApartIsDifferent(m.pn, m.lid);
      AllCleanMovable(t1, our, m.pn, m.lid);
      RekeyAllMoves(t1, our, m.pn, m.lid, o);
    }
    ClosedStep(t.sessions, our, ms, m, t1.sessions, t2.sessions);
    ClosedStep(t.identities, our, ms, m, t1.identities, t2.identities);
    ClosedStep(t.senderKeys, our, ms, m, t1.senderKeys, t2.senderKeys);
  }

  /** Committed first-time migrations, one after the other. */
  ghost predicate RunFits(t: Tables, our: string, ms: seq<Migration>, os: seq<Orders>)
    decreases |ms|
  {
    && |os| == |ms|
    && (ms != [] ==> OrdersFit(t, our, ms[0].pn, os[0])
                     && RunFits(RekeyAll(t, our, ms[0].pn, ms[0].lid, os[0]), our, ms[1..], os[1..]))
  }

  ghost function Run(t: Tables, our: string, ms: seq<Migration>, os: seq<Orders>): Tables
    requires RunFits(t, our, ms, os)
    decreases |ms|
  {
    if ms == [] then t
    else Run(RekeyAll(t, our, ms[0].pn, ms[0].lid, os[0]), our, ms[1..], os[1..])
  }

  function Elements(ms: seq<Migration>): set<Migration> {
    set m | m in ms
  }

  ghost predicate Distinct(ms: seq<Migration>) {
    forall i, j :: 0 <= i < j < |ms| ==> ms[i] != ms[j]
  }

  lemma IndependentSubset(some: set<Migration>, all: set<Migration>)
    requires some <= all && Independent(all)
    ensures Independent(some)
  {
  }

  lemma TakeFirst(done: set<Migration>, ms: seq<Migration>)
    requires ms != [] && Distinct(ms) && Elements(ms) * done == {} && Independent(done + Elements(ms))
    ensures ms[0] in ms && ms[0] !in done && Independent(done + {ms[0]}) && Distinct(ms[1..])
    ensures done + Elements(ms) == done + {ms[0]} + Elements(ms[1..])
    ensures Elements(ms[1..]) * (done + {ms[0]}) == {}
    ensures forall m :: m in ms[1..] ==> m in ms
  {
    var m, rest := ms[0], ms[1..];
    assert ms == [m] + rest;
    assert Elements(ms) == {m} + Elements(rest) by {
      assert forall x :: x in ms <==> x == m || x in rest;
    }
    assert m !in done by {
      assert m in Elements(ms) && (m in done ==> m in Elements(ms) * done);
    }
    assert m !in rest;
    assert Elements(rest) * (done + {m}) == {};
    assert done + Elements(ms) == done + {m} + Elements(rest);
    IndependentSubset(done + {m}, done + Elements(ms));
  }

  lemma {:induction false} RunClosed(t: Tables, our: string, done: set<Migration>, t1: Tables,
                                     ms: seq<Migration>, os: seq<Orders>)
    requires RunFits(t1, our, ms, os) && AllClosed(t, our, done, t1)
    requires Distinct(ms) && Elements(ms) * done == {} && Independent(done + Elements(ms))
    requires forall m :: m in ms ==> AllClean(t, our, m.pn)
    ensures AllClosed(t, our, done + Elements(ms), Run(t1, our, ms, os))
    decreases |ms|
  {
    if ms == [] {
      assert done + Elements(ms) == done;
    } else {
      var m, rest := ms[0], ms[1..];
      TakeFirst(done, ms);
      StoreStep(t, our, done, m, t1, os[0]);
      RunClosed(t, our, done + {m}, RekeyAll(t1, our, m.pn, m.lid, os[0]), rest, os[1..]);
    }
  }

  lemma ClosedUnique(t: Table, our: string, ms: set<Migration>, t1: Table, t2: Table)
    requires IsClosed(t, our, ms, t1) && IsClosed(t, our, ms, t2)
    ensures t1 == t2
  {
    forall k
      ensures k in t1 <==> k in t2
      ensures k in t1 ==> t1[k] == t2[k]
    {
      assert At(t1, k) == ClosedAt(t, our, ms, k) == At(t2, k);
    }
  }

  /** Independent first-time migrations give the same three tables in every order. */
  lemma MigrationsCommute(t: Tables, our: string, ms1: seq<Migration>, os1: seq<Orders>,
                          ms2: seq<Migration>, os2: seq<Orders>)
    requires RunFits(t, our, ms1, os1) && RunFits(t, our, ms2, os2)
    requires Distinct(ms1) && Distinct(ms2) && Elements(ms1) == Elements(ms2) && Independent(Elements(ms1))
    requires forall m :: m in ms1 ==> AllClean(t, our, m.pn)
    ensures Run(t, our, ms1, os1) == Run(t, our, ms2, os2)
  {
    assert forall m :: m in ms2 ==> m in Elements(ms2);
    assert {} + Elements(ms1) == Elements(ms1) && {} + Elements(ms2) == Elements(ms2);
    RunClosed(t, our, {}, t, ms1, os1);
    RunClosed(t, our, {}, t, ms2, os2);
    var a, b := Run(t, our, ms1, os1), Run(t, our, ms2, os2);
    ClosedUnique(t.sessions, our, Elements(ms1), a.sessions, b.sessions);
    ClosedUnique(t.identities, our, Elements(ms1), a.identities, b.identities);
    ClosedUnique(t.senderKeys, our, Elements(ms1), a.senderKeys, b.senderKeys);
  }

  /** Repeating a migration changes nothing unless new rows have been selected in between, for
      any phone number and LID. */
  lemma RepeatChangesNothing(t: Tables, our: string, m: Migration, o: Orders, o': Orders)
    requires OrdersFit(t, our, m.pn, o) && OrdersFit(RekeyAll(t, our, m.pn, m.lid, o), our, m.pn, o')
    ensures var t1 := RekeyAll(t, our, m.pn, m.lid, o);
            RekeyAll(t1, our, m.pn, m.lid, o') == t1
  {
    var t1 := RekeyAll(t, our, m.pn, m.lid, o);
    NothingToMove(t1.sessions, our, m, o'.sessions);
    NothingToMove(t1.identities, our, m, o'.identities);
    NothingToMove(t1.senderKeys, our, m, o'.senderKeys);
  }

  lemma NothingToMove(t: Table, our: string, m: Migration, order: seq<Key>)
    requires Enumerates(order, Selected(t, our, m.pn)) && forall k :: k in t ==> !Matches(k, our, m.pn)
    ensures RekeyTable(t, our, m.pn, m.lid, order) == t
  {
    assert Selected(t, our, m.pn) == {};
    NoneEnumerated(order);
    assert DeleteAll(t, our, m.pn) == t;
  }
}

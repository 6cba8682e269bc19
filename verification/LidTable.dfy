/** The `lid_map` table and the statements that read and write it.

    A table maps each LID (the primary key) to its phone number (unique, not null).  The
    cache layer in front of it is in module LidCache. */
module LidTable {
  import opened Sql

  type Table = map<string, string>

  /** The UNIQUE constraint on column `pn`. */
  ghost predicate UniquePn(t: Table) {
    forall l1, l2 :: l1 in t && l2 in t && t[l1] == t[l2] ==> l1 == l2
  }

  /** No row uses the empty string, which the caches reserve for "known to be absent". */
  ghost predicate NonEmptyUsers(t: Table) {
    "" !in t && forall l :: l in t ==> t[l] != ""
  }

  ghost predicate Has(t: Table, lid: string, pn: string) {
    lid in t && t[lid] == pn
  }

  /** SELECT pn FROM lid_map WHERE lid=$1, with "" for no row. */
  function PnOf(t: Table, lid: string): string {
    if lid in t then t[lid] else ""
  }

  /** SELECT lid FROM lid_map WHERE pn=$1, with "" for no row. */
  ghost function LidOf(t: Table, pn: string): string {
    if exists l :: Has(t, l, pn) then var l :| Has(t, l, pn); l else ""
  }

  /** A row determines both lookups. */
  lemma LookupsAtRow(t: Table, lid: string, pn: string)
    requires UniquePn(t) && Has(t, lid, pn)
    ensures LidOf(t, pn) == lid && PnOf(t, lid) == pn
  {
  }

  /** On a well-formed table the two lookups are inverse partial functions. */
  lemma LookupsInverse(t: Table, lid: string, pn: string)
    requires UniquePn(t) && NonEmptyUsers(t)
    requires lid != "" && pn != ""
    ensures LidOf(t, pn) == lid <==> PnOf(t, lid) == pn
    ensures LidOf(t, pn) == lid <==> Has(t, lid, pn)
  {
    if Has(t, lid, pn) {
      LookupsAtRow(t, lid, pn);
    }
  }

  /** DELETE FROM lid_map WHERE lid<>$1 AND pn=$2. */
  function DeleteOthers(t: Table, lid: string, pn: string): Table {
    map l | l in t && !(l != lid && t[l] == pn) :: t[l]
  }

  /** INSERT ... ON CONFLICT (lid) DO UPDATE SET pn=excluded.pn WHERE lid_map.pn<>excluded.pn.
      None stands for a violation of the UNIQUE constraint. */
  function Upsert(t: Table, lid: string, pn: string): Option<Table> {
    if exists l | l in t :: l != lid && t[l] == pn then None
    else if lid in t && t[lid] == pn then Some(t)
    else Some(t[lid := pn])
  }

  /** The reference meaning of one put: any other pair that uses `lid` or `pn` goes away and
      the pair (lid, pn) is present. */
  function Put(t: Table, lid: string, pn: string): Table {
    DeleteOthers(t, lid, pn)[lid := pn]
  }

  /** The two statements together never hit the UNIQUE constraint, and do what Put says. */
  lemma StatementsPut(t: Table, lid: string, pn: string)
    ensures Upsert(DeleteOthers(t, lid, pn), lid, pn) == Some(Put(t, lid, pn))
  {
    var d := DeleteOthers(t, lid, pn);
    if lid in d && d[lid] == pn {
      assert d[lid := pn] == d;
    }
  }

  /** A put leaves exactly the rows that share neither column with the new pair, plus the pair. */
  lemma PutRows(t: Table, lid: string, pn: string, l: string, p: string)
    ensures Has(Put(t, lid, pn), l, p)
       <==> (l, p) == (lid, pn) || (Has(t, l, p) && l != lid && p != pn)
  {
  }

  lemma PutKeepsConstraints(t: Table, lid: string, pn: string)
    requires UniquePn(t)
    ensures UniquePn(Put(t, lid, pn))
    ensures NonEmptyUsers(t) ==> (NonEmptyUsers(Put(t, lid, pn)) <==> lid != "" && pn != "")
  {
    var t' := Put(t, lid, pn);
    assert Has(t', lid, pn);
  }

  /** Tables are determined by their rows. */
  lemma SameRows(t1: Table, t2: Table)
    requires forall l, p :: Has(t1, l, p) <==> Has(t2, l, p)
    ensures t1 == t2
  {
    forall l
      ensures l in t1 <==> l in t2
      ensures l in t1 ==> t1[l] == t2[l]
    {
      if l in t1 {
        assert Has(t1, l, t1[l]);
      }
      if l in t2 {
        assert Has(t2, l, t2[l]);
      }
    }
  }
}

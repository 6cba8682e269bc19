/** Multi-row INSERT statements with numbered placeholders: what they insert once their
    placeholders are resolved, and the statements that the store builds. */
module MassInsert {
  import opened Sql

  datatype Value = Null | Text(text: string) | Blob(bytes: Bytes) | Num(n: int)

  /** One tuple of placeholder numbers for each row ($1 is the first value), and the values. */
  datatype Statement = Statement(tuples: seq<seq<nat>>, values: seq<Value>)

  ghost predicate InRange(st: Statement) {
    forall t, p :: t in st.tuples && p in t ==> 1 <= p <= |st.values|
  }

  function ValueOf(values: seq<Value>, placeholder: nat): Value {
    if 1 <= placeholder <= |values| then values[placeholder - 1] else Null
  }

  function Resolve(values: seq<Value>, tuple: seq<nat>): (row: seq<Value>)
    ensures |row| == |tuple|
  {
    seq(|tuple|, i requires 0 <= i < |tuple| => ValueOf(values, tuple[i]))
  }

  /** The rows that a statement inserts. */
  function Rows(st: Statement): (rows: seq<seq<Value>>)
    ensures |rows| == |st.tuples|
  {
    seq(|st.tuples|, i requires 0 <= i < |st.tuples| => Resolve(st.values, st.tuples[i]))
  }

  function AllRows(sts: seq<Statement>): seq<seq<Value>> {
    if sts == [] then [] else AllRows(sts[..|sts| - 1]) + Rows(sts[|sts| - 1])
  }

  // ---------------------------------------------------------------- mutation MACs

  datatype Mutation = Mutation(indexMac: Bytes, valueMac: Bytes)

  /** The row that a mutation stands for. */
  function MutationRow(jid: string, name: string, version: nat, m: Mutation): seq<Value> {
    [Text(jid), Text(name), Num(version), Blob(m.indexMac), Blob(m.valueMac)]
  }

  function MutationRows(jid: string, name: string, version: nat, ms: seq<Mutation>): (rows: seq<seq<Value>>)
    ensures |rows| == |ms|
  {
    seq(|ms|, i requires 0 <= i < |ms| => MutationRow(jid, name, version, ms[i]))
  }

  const MUTATION_BATCH_SIZE: nat := 400

  /** The two-wide layout behind the three shared values. */
  ghost predicate Laid(jid: string, name: string, version: nat, ms: seq<Mutation>, values: seq<Value>) {
    && |values| == 3 + 2 * |ms|
    && values[0] == Text(jid) && values[1] == Text(name) && values[2] == Num(version)
    && forall k :: 0 <= k < |ms| ==>
         values[3 + 2 * k] == Blob(ms[k].indexMac) && values[3 + 2 * k + 1] == Blob(ms[k].valueMac)
  }

  lemma LaidResolves(jid: string, name: string, version: nat, ms: seq<Mutation>, st: Statement)
    requires Laid(jid, name, version, ms, st.values) && |st.tuples| == |ms|
    requires forall k :: 0 <= k < |ms| ==> st.tuples[k] == [1, 2, 3, 3 + 2 * k + 1, 3 + 2 * k + 2]
    ensures InRange(st) && Rows(st) == MutationRows(jid, name, version, ms)
  {
    forall k | 0 <= k < |ms|
      ensures Rows(st)[k] == MutationRow(jid, name, version, ms[k])
    {
    }
  }

  /** The placeholder arithmetic of putAppStateMutationMACs: every placeholder is in range,
      and resolving them gives one row a mutation, in order. */
  method BuildMutations(jid: string, name: string, version: nat, mutations: seq<Mutation>) returns (st: Statement)
    ensures InRange(st) && |st.values| == 3 + 2 * |mutations| && |st.tuples| == |mutations|
    ensures st.values[0] == Text(jid) && st.values[1] == Text(name) && st.values[2] == Num(version)
    ensures forall k :: 0 <= k < |mutations| ==>
              && st.values[3 + 2 * k] == Blob(mutations[k].indexMac)
              && st.values[3 + 2 * k + 1] == Blob(mutations[k].valueMac)
              && st.tuples[k] == [1, 2, 3, 3 + 2 * k + 1, 3 + 2 * k + 2]
    ensures forall k :: 0 <= k < |mutations| ==>
              Rows(st)[k] ==
                [Text(jid), Text(name), Num(version), Blob(mutations[k].indexMac), Blob(mutations[k].valueMac)]
    ensures Rows(st) == MutationRows(jid, name, version, mutations)
  {
    var values := new Value[3 + |mutations| * 2](_ => Null);
    var queryParts: seq<seq<nat>> := [];
    values[0], values[1], values[2] := Text(jid), Text(name), Num(version);
    for i := 0 to |mutations|
      invariant values[0] == Text(jid) && values[1] == Text(name) && values[2] == Num(version)
      invariant |queryParts| == i
      invariant forall k :: 0 <= k < i ==> queryParts[k] == [1, 2, 3, 3 + 2 * k + 1, 3 + 2 * k + 2]
      invariant forall k :: 0 <= k < i ==>
                  && values[3 + 2 * k] == Blob(mutations[k].indexMac)
                  && values[3 + 2 * k + 1] == Blob(mutations[k].valueMac)
    {
      var baseIndex := 3 + i * 2;
      values[baseIndex] := Blob(mutations[i].indexMac);
      values[baseIndex + 1] := Blob(mutations[i].valueMac);
      queryParts := queryParts + [[1, 2, 3, baseIndex + 1, baseIndex + 2]];
    }
    st := Statement(queryParts, values[..]);
    LaidResolves(jid, name, version, mutations, st);
  }

  /** `app_state_mutation_macs`: the primary key, and the value column. */
  datatype MacKey = MacKey(jid: string, name: string, version: int, indexMac: Bytes)

  type MacTable = map<MacKey, Bytes>

  /** The (jid, name) keys of `app_state_version`, which the MACs refer to. */
  type Versions = set<(string, string)>

  /** Inserting one row; None for a violated PRIMARY KEY, FOREIGN KEY or length CHECK. */
  function InsertMac(vs: Versions, t: MacTable, row: seq<Value>): Option<MacTable> {
    if |row| == 5 && row[0].Text? && row[1].Text? && row[2].Num? && row[3].Blob? && row[4].Blob? then
      var key := MacKey(row[0].text, row[1].text, row[2].n, row[3].bytes);
      if key in t || (key.jid, key.name) !in vs || |row[3].bytes| != 32 || |row[4].bytes| != 32 then None
      else Some(t[key := row[4].bytes])
    else None
  }

  function InsertMacs(vs: Versions, t: MacTable, rows: seq<seq<Value>>): Option<MacTable> {
    if rows == [] then Some(t)
    else
      var before := InsertMacs(vs, t, rows[..|rows| - 1]);
      if before.None? then None else InsertMac(vs, before.value, rows[|rows| - 1])
  }

  lemma {:induction false} InsertMacsAppend(vs: Versions, t: MacTable, a: seq<seq<Value>>, b: seq<seq<Value>>)
    ensures InsertMacs(vs, t, a + b) ==
            if InsertMacs(vs, t, a).None? then None else InsertMacs(vs, InsertMacs(vs, t, a).value, b)
  {
    if b == [] {
      assert a + b == a;
    } else {
      InsertMacsAppend(vs, t, a, b[..|b| - 1]);
      assert (a + b)[..|a + b| - 1] == a + b[..|b| - 1];
    }
  }

  function KeyOf(jid: string, name: string, version: int, m: Mutation): MacKey {
    MacKey(jid, name, version, m.indexMac)
  }

  /** The mutations fit the table: a version row to refer to, right lengths, no index twice, none stored already. */
  ghost predicate Insertable(vs: Versions, t: MacTable, jid: string, name: string, version: int, ms: seq<Mutation>) {
    && (ms != [] ==> (jid, name) in vs)
    && (forall m :: m in ms ==> |m.indexMac| == 32 && |m.valueMac| == 32 && KeyOf(jid, name, version, m) !in t)
    && (forall i, j :: 0 <= i < j < |ms| ==> ms[i].indexMac != ms[j].indexMac)
  }

  /** t' is t with one row a mutation. */
  ghost predicate Gained(t: MacTable, jid: string, name: string, version: int, ms: seq<Mutation>, t': MacTable) {
    && (forall k :: k in t' <==> k in t || exists m :: m in ms && KeyOf(jid, name, version, m) == k)
    && (forall k :: k in t ==> t'[k] == t[k])
    && (forall m :: m in ms ==> t'[KeyOf(jid, name, version, m)] == m.valueMac)
  }

  lemma GainedPush(t: MacTable, jid: string, name: string, version: int,
                   front: seq<Mutation>, last: Mutation, before: MacTable)
    requires Gained(t, jid, name, version, front, before) && KeyOf(jid, name, version, last) !in before
    ensures Gained(t, jid, name, version, front + [last], before[KeyOf(jid, name, version, last) := last.valueMac])
  {
    assert forall m :: m in front + [last] <==> m in front || m == last;
  }

  /** The last mutation of a batch goes in unless it violates a constraint. */
  lemma InsertLast(vs: Versions, t: MacTable, jid: string, name: string, version: nat,
                   front: seq<Mutation>, last: Mutation)
    ensures var key := KeyOf(jid, name, version, last);
            var before := InsertMacs(vs, t, MutationRows(jid, name, version, front));
            InsertMacs(vs, t, MutationRows(jid, name, version, front + [last])) ==
            if before.None? || key in before.value || (jid, name) !in vs then None
            else if |last.indexMac| != 32 || |last.valueMac| != 32 then None
            else Some(before.value[key := last.valueMac])
  {
    var rows := MutationRows(jid, name, version, front + [last]);
    assert rows[..|rows| - 1] == MutationRows(jid, name, version, front);
    assert rows[|rows| - 1] == MutationRow(jid, name, version, last);
  }

  /** A batch is accepted exactly when it fits, and then the table has gained one row a
      mutation and nothing else has changed. */
  lemma {:induction false} InsertMacsExact(vs: Versions, t: MacTable, jid: string, name: string, version: nat,
                                           ms: seq<Mutation>)
    ensures InsertMacs(vs, t, MutationRows(jid, name, version, ms)).Some? <==> Insertable(vs, t, jid, name, version, ms)
    ensures Insertable(vs, t, jid, name, version, ms) ==>
              Gained(t, jid, name, version, ms, InsertMacs(vs, t, MutationRows(jid, name, version, ms)).value)
  {
    if ms == [] {
      assert MutationRows(jid, name, version, ms) == [];
    } else {
      var front, last := ms[..|ms| - 1], ms[|ms| - 1];
      assert ms == front + [last];
      InsertMacsExact(vs, t, jid, name, version, front);
      InsertLast(vs, t, jid, name, version, front, last);
      InsertableSplit(vs, t, jid, name, version, front, last);
      if Insertable(vs, t, jid, name, version, front) {
        var before := InsertMacs(vs, t, MutationRows(jid, name, version, front)).value;
        if KeyOf(jid, name, version, last) !in before {
          GainedPush(t, jid, name, version, front, last, before);
        }
      }
    }
  }

  lemma InsertableSplit(vs: Versions, t: MacTable, jid: string, name: string, version: nat,
                        front: seq<Mutation>, last: Mutation)
    ensures Insertable(vs, t, jid, name, version, front + [last]) <==>
            && Insertable(vs, t, jid, name, version, front)
            && (jid, name) in vs && |last.indexMac| == 32 && |last.valueMac| == 32
            && KeyOf(jid, name, version, last) !in t
            && (forall m :: m in front ==> KeyOf(jid, name, version, m) != KeyOf(jid, name, version, last))
  {
    var all := front + [last];
    if Insertable(vs, t, jid, name, version, all) {
      forall m | m in front
        ensures m.indexMac != last.indexMac
      {
        var i :| 0 <= i < |front| && front[i] == m;
        assert all[i] == m && all[|front|] == last;
      }
      assert forall i :: 0 <= i < |front| ==> all[i] == front[i];
      assert last in all;
    }
  }

  lemma MutationRowsAppend(jid: string, name: string, version: nat, a: seq<Mutation>, b: seq<Mutation>)
    ensures MutationRows(jid, name, version, a + b)
         == MutationRows(jid, name, version, a) + MutationRows(jid, name, version, b)
  {
  }

  /** How many statements n mutations take. */
  function Chunks(n: nat): nat {
    (n + MUTATION_BATCH_SIZE - 1) / MUTATION_BATCH_SIZE
  }

  lemma ChunkStep(from: nat, n: nat)
    requires from < n && from % MUTATION_BATCH_SIZE == 0
    ensures var to := if from + MUTATION_BATCH_SIZE <= n then from + MUTATION_BATCH_SIZE else n;
            Chunks(to) == Chunks(from) + 1 && (to == n || to % MUTATION_BATCH_SIZE == 0)
    ensures Chunks(from) < Chunks(n)
  {
  }

  /** No placeholder is out of range, and no statement has more values than a full chunk. */
  ghost predicate Fits(sts: seq<Statement>) {
    forall st :: st in sts ==> InRange(st) && |st.values| <= 803
  }

  lemma FitsPush(sts: seq<Statement>, st: Statement)
    requires Fits(sts) && InRange(st) && |st.values| <= 803
    ensures Fits(sts + [st])
  {
  }

  /** One more statement, for the mutations from `from` to `to`. */
  lemma NextChunk(vs: Versions, t: MacTable, m: MacTable, jid: string, name: string, version: nat,
                  ms: seq<Mutation>, from: nat, to: nat, st: Statement, sent: seq<Statement>)
    requires from <= to <= |ms| && Rows(st) == MutationRows(jid, name, version, ms[from..to])
    requires InsertMacs(vs, t, MutationRows(jid, name, version, ms[..from])) == Some(m)
    requires AllRows(sent) == MutationRows(jid, name, version, ms[..from])
    ensures InsertMacs(vs, t, MutationRows(jid, name, version, ms[..to])) == InsertMacs(vs, m, Rows(st))
    ensures AllRows(sent + [st]) == MutationRows(jid, name, version, ms[..to])
  {
    assert ms[..to] == ms[..from] + ms[from..to];
    assert (sent + [st])[..|sent|] == sent;
    MutationRowsAppend(jid, name, version, ms[..from], ms[from..to]);
    InsertMacsAppend(vs, t, MutationRows(jid, name, version, ms[..from]), Rows(st));
  }

  class MacStore {
    const jid: string
    /** The keys of `app_state_version`; no other table is touched here. */
    var versions: Versions
    var macs: MacTable

    constructor (jid: string, versions: Versions, macs: MacTable)
      ensures this.jid == jid && this.versions == versions && this.macs == macs
    {
      this.jid := jid;
      this.versions := versions;
      this.macs := macs;
    }

    /** One statement. */
    method InsertChunk(name: string, version: nat, mutations: seq<Mutation>, fault: bool)
      returns (ok: bool, st: Statement)
      modifies this`macs
      ensures Rows(st) == MutationRows(jid, name, version, mutations)
      ensures InRange(st) && |st.values| == 3 + 2 * |mutations|
      ensures ok <==> !fault && InsertMacs(versions, old(macs), Rows(st)).Some?
      ensures if ok then InsertMacs(versions, old(macs), Rows(st)) == Some(macs) else macs == old(macs)
    {
      st := BuildMutations(jid, name, version, mutations);
      if fault {
        return false, st;
      }
      var inserted := InsertMacs(versions, macs, Rows(st));
      ok := inserted.Some?;
      if ok {
        macs := inserted.value;
      }
    }

    /** One statement a chunk, from step 1 on.  `sent` are the statements that were executed. */
    method InsertChunks(name: string, version: nat, mutations: seq<Mutation>, fault: Fault)
      returns (ok: bool, ghost sent: seq<Statement>)
      requires !Fails(fault, 0)
      modifies this`macs
      ensures ok ==> InsertMacs(versions, old(macs), MutationRows(jid, name, version, mutations)) == Some(macs)
      ensures ok ==> AllRows(sent) == MutationRows(jid, name, version, mutations)
      ensures ok ==> fault.NoFault? || fault.step > Chunks(|mutations|)
      ensures !ok ==>
                || (fault.FailAt? && fault.step <= Chunks(|mutations|))
                || InsertMacs(versions, old(macs), MutationRows(jid, name, version, mutations)).None?
      ensures Fits(sent)
    {
      sent := [];
      var from, step := 0, 1;
      while from < |mutations|
        invariant from <= |mutations| && (from == |mutations| || from % MUTATION_BATCH_SIZE == 0)
        invariant step == 1 + Chunks(from) && (fault.NoFault? || fault.step >= step)
        invariant InsertMacs(versions, old(macs), MutationRows(jid, name, version, mutations[..from])) == Some(macs)
        invariant AllRows(sent) == MutationRows(jid, name, version, mutations[..from])
        invariant Fits(sent)
      {
        var to := if from + MUTATION_BATCH_SIZE <= |mutations| then from + MUTATION_BATCH_SIZE else |mutations|;
        ChunkStep(from, |mutations|);
        ghost var before := macs;
        var done, st := InsertChunk(name, version, mutations[from..to], Fails(fault, step));
        NextChunk(versions, old(macs), before, jid, name, version, mutations, from, to, st, sent);
        FitsPush(sent, st);
        sent := sent + [st];
        if !done {
          PrefixInserts(versions, old(macs), jid, name, version, mutations, to);
          return false, sent;
        }
        from, step := to, step + 1;
      }
      assert mutations[..from] == mutations;
      ok := true;
    }

    /** One transaction; step 0 is begin, then one statement a chunk, then commit. */
    method PutAppStateMutationMACs(name: string, version: nat, mutations: seq<Mutation>, fault: Fault)
      returns (ok: bool, ghost sent: seq<Statement>)
      modifies this`macs
      ensures !ok ==> macs == old(macs)
      ensures ok ==> Gained(old(macs), jid, name, version, mutations, macs)
      ensures ok ==> InsertMacs(versions, old(macs), MutationRows(jid, name, version, mutations)) == Some(macs)
      ensures ok <==>
                || mutations == []
                || (Insertable(versions, old(macs), jid, name, version, mutations)
                    && (fault.NoFault? || fault.step > 1 + (|mutations| + 399) / 400))
      ensures ok ==> AllRows(sent) == MutationRows(jid, name, version, mutations)
      ensures forall st :: st in sent ==> InRange(st) && |st.values| <= 803
    {
      sent := [];
      if mutations == [] {
        return true, sent;
      }
      if Fails(fault, 0) {
        return false, sent;
      }
      InsertMacsExact(versions, macs, jid, name, version, mutations);
      var snapshot := macs;
      ok, sent := InsertChunks(name, version, mutations, fault);
      if !ok || Fails(fault, 1 + Chunks(|mutations|)) {
        macs := snapshot;
        return false, sent;
      }
    }
  }

  /** A prefix that is refused refuses the whole batch. */
  lemma PrefixInserts(vs: Versions, t: MacTable, jid: string, name: string, version: nat, ms: seq<Mutation>, n: nat)
    requires n <= |ms|
    ensures InsertMacs(vs, t, MutationRows(jid, name, version, ms[..n])).None? ==>
              InsertMacs(vs, t, MutationRows(jid, name, version, ms)).None?
  {
    assert ms == ms[..n] + ms[n..];
    MutationRowsAppend(jid, name, version, ms[..n], ms[n..]);
    InsertMacsAppend(vs, t, MutationRows(jid, name, version, ms[..n]), MutationRows(jid, name, version, ms[n..]));
  }
}

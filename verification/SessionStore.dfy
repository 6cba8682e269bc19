/** The calls on a device that go through the session cache, in place. */
module SessionStore {
  import opened Sql
  import opened SessionCache

  /** What a context carries: a shared, mutable cache. */
  class ContextCache<R> {
    var entries: Cache<R>

    constructor (entries: Cache<R>)
      ensures this.entries == entries
    {
      this.entries := entries;
    }
  }

  datatype Row = Row(addr: string, session: Option<Bytes>)

  /** The rows that SELECT ... WHERE their_id IN (...) delivers. */
  ghost predicate Delivers(t: Table, addrs: seq<string>, rows: seq<Row>) {
    && (forall r :: r in rows ==> r.addr in t && r.addr in addrs && t[r.addr] == r.session)
    && (forall a :: a in addrs && a in t ==> Row(a, t[a]) in rows)
  }

  /** The part of a cache, or of the dirty sessions, that a loop has been through. */
  function Part<V>(m: map<string, V>, done: set<string>): map<string, V> {
    map a | a in m && a in done :: m[a]
  }

  lemma PartAll<V>(m: map<string, V>)
    ensures Part(m, m.Keys) == m
    ensures Part(m, {}) == map[]
  {
  }

  lemma PrefetchAdd<R>(codec: Codec<R>, t: Table, done: set<string>, addr: string)
    ensures var record := Decode(codec, Raw(t, addr));
            Prefetch(codec, t, done + {addr}) ==
            if record.None? then (if addr in done then Prefetch(codec, t, done) - {addr} else Prefetch(codec, t, done))
            else Prefetch(codec, t, done)[addr := Entry(false, Raw(t, addr).Some?, record.value)]
  {
  }

  lemma DirtyAdd<R>(codec: Codec<R>, c: Cache<R>, done: set<string>, addr: string)
    requires addr in c && addr !in done
    ensures Dirty(codec, Part(c, done + {addr})) ==
            if c[addr].dirty then Dirty(codec, Part(c, done))[addr := codec.serialize(c[addr].record)]
            else Dirty(codec, Part(c, done))
  {
  }

  /** Which of the prefetched addresses had a session. */
  function Existing<R>(c: Cache<R>): map<string, bool> {
    map a | a in c :: c[a].found
  }

  lemma ExistingAdd<R>(c: Cache<R>, addr: string, e: Entry<R>)
    ensures Existing(c[addr := e]) == Existing(c)[addr := e.found]
  {
  }

  lemma WithoutAll<V>(m: map<string, V>)
    ensures m - m.Keys == map[] && m - {} == m
  {
  }

  lemma UpsertOne(t: Table, dirty: map<string, Bytes>, todo: set<string>, addr: string)
    requires addr in todo && todo <= dirty.Keys
    ensures WithAll(t, dirty - (todo - {addr})) == WithAll(t, dirty - todo)[addr := Some(dirty[addr])]
  {
    assert dirty - (todo - {addr}) == (dirty - todo)[addr := dirty[addr]];
    WithAllAdd(t, dirty - todo, addr, dirty[addr]);
  }

  lemma WithAllRows(t: Table, dirty: map<string, Bytes>)
    ensures var t' := WithAll(t, dirty);
            && (forall a :: a in t' <==> a in t || a in dirty)
            && (forall a :: a in t' ==> t'[a] == if a in dirty then Some(dirty[a]) else t[a])
  {
  }

  lemma DirtyKeys<R>(codec: Codec<R>, c: Cache<R>)
    ensures Dirty(codec, c).Keys == set a | a in c && c[a].dirty
  {
  }

  class Device<R(!new)> {
    const codec: Codec<R>
    var sessions: Table

    constructor (codec: Codec<R>, sessions: Table)
      ensures this.codec == codec && this.sessions == sessions
    {
      this.codec := codec;
      this.sessions := sessions;
    }

    method GetManySessions(addrs: seq<string>, rows: seq<Row>) returns (result: map<string, Option<Bytes>>)
      requires Delivers(sessions, addrs, rows)
      ensures forall a :: a in result <==> a in addrs
      ensures forall a :: a in result ==> result[a] == if a in sessions then sessions[a] else None
      ensures result == map a | a in addrs :: Raw(sessions, a)
    {
      result := map a | a in addrs :: None;
      for i := 0 to |rows|
        invariant result.Keys == set a | a in addrs
        invariant forall a :: a in result ==>
                    result[a] == (if a in sessions && Row(a, sessions[a]) in rows[..i] then sessions[a] else None)
      {
        assert rows[i] in rows;
        assert rows[..i + 1] == rows[..i] + [rows[i]];
        result := result[rows[i].addr := rows[i].session];
      }
      assert rows[..|rows|] == rows;
    }

    /** The loop over the prefetched sessions, in any order. */
    method BuildCache(raw: map<string, Option<Bytes>>) returns (wrapped: Cache<R>, existing: map<string, bool>)
      requires forall a :: a in raw ==> raw[a] == Raw(sessions, a)
      ensures wrapped == Prefetch(codec, sessions, raw.Keys) && existing == Existing(wrapped)
    {
      wrapped := map[];
      existing := map[];
      var todo := raw.Keys;
      ghost var done: set<string> := {};
      while todo != {}
        invariant todo !! done && todo + done == raw.Keys
        invariant wrapped == Prefetch(codec, sessions, done)
        invariant existing == Existing(wrapped)
        decreases todo
      {
        var addr :| addr in todo;
        PrefetchAdd(codec, sessions, done, addr);
        todo, done := todo - {addr}, done + {addr};
        if raw[addr].None? {
          ExistingAdd(wrapped, addr, Entry(false, false, codec.empty));
          wrapped := wrapped[addr := Entry(false, false, codec.empty)];
          existing := existing[addr := false];
        } else {
          var record := codec.parse(raw[addr].value);
          if record.Some? {
            ExistingAdd(wrapped, addr, Entry(false, true, record.value));
            wrapped := wrapped[addr := Entry(false, true, record.value)];
            existing := existing[addr := true];
          }
        }
      }
      assert done == raw.Keys;
    }

    /** Unparsable sessions are left out of both results, so that a load reports them later.  An
        address without a session gets a fresh record. */
    method WithCachedSessions(addrs: seq<string>, ctx: ContextCache?<R>, rows: seq<Row>, fault: bool)
      returns (existing: map<string, bool>, ctx': ContextCache?<R>, ok: bool)
      requires Delivers(sessions, addrs, rows)
      ensures ok == (addrs == [] || !fault)
      ensures addrs == [] || fault ==> existing == map[] && ctx' == ctx
      ensures addrs != [] && !fault ==>
                && ctx' != null && fresh(ctx')
                && ctx'.entries == Prefetch(codec, sessions, set a | a in addrs)
                && existing == Existing(ctx'.entries)
                && StandsFor(codec, sessions, ctx'.entries, sessions)
                && ctx'.entries.Keys == existing.Keys
                && (forall a :: a in existing <==>
                      a in addrs &&
                      (a !in sessions || sessions[a].None? || codec.parse(sessions[a].value).Some?))
                && (forall a :: a in existing ==> existing[a] == (a in sessions && sessions[a].Some?))
                && (forall a :: a in existing ==>
                      ctx'.entries[a] ==
                        if existing[a] then Entry(false, true, codec.parse(sessions[a].value).value)
                        else Entry(false, false, codec.empty))
    {
      if addrs == [] {
        return map[], ctx, true;
      }
      if fault {
        return map[], ctx, false;
      }
      var raw := GetManySessions(addrs, rows);
      var wrapped;
      wrapped, existing := BuildCache(raw);
      PrefetchStandsFor(codec, sessions, raw.Keys);
      ctx' := new ContextCache(wrapped);
      ok := true;
    }

    /** A cached record comes first; then no row and NULL give a fresh record, and bytes what
        they parse to. */
    method LoadSession(ctx: ContextCache?<R>, addr: string, fault: bool) returns (r: Result<R, LoadError>)
      ensures ctx != null && addr in ctx.entries ==> r == Ok(ctx.entries[addr].record)
      ensures ctx == null || addr !in ctx.entries ==>
                if fault then r == Err(DatabaseError)
                else if addr !in sessions || sessions[addr].None? then r == Ok(codec.empty)
                else if codec.parse(sessions[addr].value).None? then r == Err(Corrupt)
                else r == Ok(codec.parse(sessions[addr].value).value)
      ensures r == CachedLoad(codec, sessions, if ctx == null then map[] else ctx.entries, addr, fault)
    {
      if ctx != null && addr in ctx.entries {
        return Ok(ctx.entries[addr].record);
      }
      if fault {
        return Err(DatabaseError);
      }
      var raw := Raw(sessions, addr);
      if raw.None? {
        return Ok(codec.empty);
      }
      var record := codec.parse(raw.value);
      if record.None? {
        return Err(Corrupt);
      }
      r := Ok(record.value);
    }

    method StoreSession(ctx: ContextCache?<R>, addr: string, record: R, fault: bool) returns (ok: bool)
      modifies this, ctx
      ensures ctx != null ==>
                && ok && sessions == old(sessions)
                && ctx.entries == old(ctx.entries)[addr := Entry(true, true, record)]
                && ctx.entries == CachedStore(old(ctx.entries), addr, record)
      ensures ctx == null ==> ok == !fault
      ensures ctx == null ==>
                && sessions == (if fault then old(sessions) else old(sessions)[addr := Some(codec.serialize(record))])
                && sessions == if fault then old(sessions) else DirectStore(codec, old(sessions), addr, record)
    {
      if ctx != null {
        ctx.entries := ctx.entries[addr := Entry(true, true, record)];
        return true;
      }
      if fault {
        return false;
      }
      sessions := sessions[addr := Some(codec.serialize(record))];
      ok := true;
    }

    method ContainsSession(addr: string) returns (has: bool)
      ensures has == (addr in sessions)
    {
      has := addr in sessions;
    }

    /** One transaction, its rows in any order; the n+2 steps are begin, n upserts, commit. */
    method UpsertSessions(dirty: map<string, Bytes>, fault: Fault) returns (ok: bool)
      modifies this
      ensures ok == (fault.NoFault? || fault.step > |dirty| + 1)
      ensures sessions == if ok then WithAll(old(sessions), dirty) else old(sessions)
    {
      if Fails(fault, 0) {
        return false;
      }
      var snapshot := sessions;
      var todo := dirty.Keys;
      var step: nat := 1;
      WithoutAll(dirty);
      while todo != {}
        invariant todo <= dirty.Keys && step + |todo| == |dirty| + 1
        invariant fault.NoFault? || fault.step >= step
        invariant sessions == WithAll(snapshot, dirty - todo)
        decreases todo
      {
        var addr :| addr in todo;
        if Fails(fault, step) {
          sessions := snapshot;
          return false;
        }
        UpsertOne(snapshot, dirty, todo, addr);
        sessions := sessions[addr := Some(dirty[addr])];
        todo := todo - {addr};
        step := step + 1;
      }
      if Fails(fault, step) {
        sessions := snapshot;
        return false;
      }
      ok := true;
    }

    method PutManySessions(dirty: map<string, Bytes>, fault: Fault) returns (ok: bool)
      modifies this
      ensures ok == (fault.NoFault? || fault.step > |dirty| + 1)
      ensures !ok ==> sessions == old(sessions)
      ensures ok ==> forall a :: a in sessions <==> a in old(sessions) || a in dirty
      ensures ok ==> forall a :: a in sessions ==>
                sessions[a] == if a in dirty then Some(dirty[a]) else old(sessions)[a]
      ensures ok ==> sessions == WithAll(old(sessions), dirty)
    {
      WithAllRows(sessions, dirty);
      ok := UpsertSessions(dirty, fault);
    }

    /** The loop over the cache, in any order. */
    method CollectDirty(entries: Cache<R>) returns (dirty: map<string, Bytes>)
      ensures dirty == Dirty(codec, entries)
    {
      dirty := map[];
      var todo := entries.Keys;
      ghost var done: set<string> := {};
      PartAll(entries);
      while todo != {}
        invariant todo !! done && todo + done == entries.Keys
        invariant dirty == Dirty(codec, Part(entries, done))
        decreases todo
      {
        var addr :| addr in todo;
        DirtyAdd(codec, entries, done, addr);
        todo, done := todo - {addr}, done + {addr};
        if entries[addr].dirty {
          dirty := dirty[addr := codec.serialize(entries[addr].record)];
        }
      }
      assert done == entries.Keys;
    }

    method PutCachedSessions(ctx: ContextCache?<R>, fault: Fault) returns (ok: bool)
      modifies this, ctx
      ensures ctx == null ==> ok && sessions == old(sessions)
      ensures ctx != null && ok ==> sessions == Overlay(codec, old(sessions), old(ctx.entries)) && ctx.entries == map[]
      ensures ctx != null && ok ==>
                var c := old(ctx.entries);
                && (forall a :: a in sessions <==> a in old(sessions) || (a in c && c[a].dirty))
                && (forall a :: a in sessions ==>
                      sessions[a] == if a in c && c[a].dirty then Some(codec.serialize(c[a].record))
                                     else old(sessions)[a])
      ensures ctx != null && !ok ==> sessions == old(sessions) && ctx.entries == old(ctx.entries)
      ensures ctx != null ==>
                var c := old(ctx.entries);
                var n := |set a | a in c && c[a].dirty|;
                !ok <==> n > 0 && fault.FailAt? && fault.step <= n + 1
    {
      if ctx == null {
        return true;
      }
      var entries := ctx.entries;
      DirtyKeys(codec, entries);
      var dirty := CollectDirty(entries);
      if |dirty| == 0 {
        assert Overlay(codec, sessions, entries) == sessions;
      }
      if |dirty| > 0 {
        ok := PutManySessions(dirty, fault);
        if !ok {
          return;
        }
      }
      ctx.entries := map[];
      ok := true;
    }
  }
}

/** The write-back cache that a context can carry for Signal sessions: dirty bits in front of
    the sessions table, and why nobody can tell it from writing through. */
module SessionCache {
  import opened Sql

  /** Session records are values; the serializer is a parameter. */
  datatype Codec<!R> = Codec(serialize: R -> Bytes, parse: Bytes -> Option<R>, empty: R)

  ghost predicate RoundTrips<R(!new)>(codec: Codec<R>) {
    forall r: R :: codec.parse(codec.serialize(r)) == Some(r)
  }

  /** The account's rows of `sessions`; the column may be NULL. */
  type Table = map<string, Option<Bytes>>

  datatype Entry<R> = Entry(dirty: bool, found: bool, record: R)

  type Cache<R> = map<string, Entry<R>>

  datatype LoadError = Corrupt | DatabaseError

  /** SELECT session ..., with no row read as nil. */
  function Raw(t: Table, addr: string): Option<Bytes> {
    if addr in t then t[addr] else None
  }

  function Decode<R>(codec: Codec<R>, raw: Option<Bytes>): Option<R> {
    if raw.None? then Some(codec.empty) else codec.parse(raw.value)
  }

  /** Loading without a cache. */
  function DirectLoad<R>(codec: Codec<R>, t: Table, addr: string): Result<R, LoadError> {
    var record := Decode(codec, Raw(t, addr));
    if record.None? then Err(Corrupt) else Ok(record.value)
  }

  function DirectStore<R>(codec: Codec<R>, t: Table, addr: string, record: R): Table {
    t[addr := Some(codec.serialize(record))]
  }

  /** Loading with a cache; the database is needed for addresses outside it only. */
  function CachedLoad<R>(codec: Codec<R>, t: Table, c: Cache<R>, addr: string, fault: bool): Result<R, LoadError> {
    if addr in c then Ok(c[addr].record)
    else if fault then Err(DatabaseError)
    else DirectLoad(codec, t, addr)
  }

  function CachedStore<R>(c: Cache<R>, addr: string, record: R): Cache<R> {
    c[addr := Entry(true, true, record)]
  }

  /** What the prefetch caches: every requested address whose session parses. */
  function Prefetch<R>(codec: Codec<R>, t: Table, addrs: set<string>): Cache<R> {
    map a | a in addrs && Decode(codec, Raw(t, a)).Some? ::
      Entry(false, Raw(t, a).Some?, Decode(codec, Raw(t, a)).value)
  }

  function Dirty<R>(codec: Codec<R>, c: Cache<R>): map<string, Bytes> {
    map a | a in c && c[a].dirty :: codec.serialize(c[a].record)
  }

  function WithAll(t: Table, sessions: map<string, Bytes>): Table {
    t + map a | a in sessions :: Some(sessions[a])
  }

  lemma WithAllAdd(t: Table, sessions: map<string, Bytes>, addr: string, session: Bytes)
    ensures WithAll(t, sessions[addr := session]) == WithAll(t, sessions)[addr := Some(session)]
  {
  }

  /** The table that a flush leaves. */
  function Overlay<R>(codec: Codec<R>, t: Table, c: Cache<R>): Table {
    WithAll(t, Dirty(codec, c))
  }

  // ---------------------------------------------------------------- the refinement

  /** The cached store (t, c) stands for the write-through table d. */
  ghost predicate StandsFor<R>(codec: Codec<R>, t: Table, c: Cache<R>, d: Table) {
    && Overlay(codec, t, c) == d
    && forall a :: a in c ==> DirectLoad(codec, d, a) == Ok(c[a].record)
  }

  lemma PrefetchStandsFor<R>(codec: Codec<R>, t: Table, addrs: set<string>)
    ensures StandsFor(codec, t, Prefetch(codec, t, addrs), t)
  {
    assert Dirty(codec, Prefetch(codec, t, addrs)) == map[];
  }

  /** Loads cannot tell the two apart, parse failures included. */
  lemma LoadRefines<R>(codec: Codec<R>, t: Table, c: Cache<R>, d: Table, addr: string, fault: bool)
    requires StandsFor(codec, t, c, d)
    ensures CachedLoad(codec, t, c, addr, fault) ==
            if fault && addr !in c then Err(DatabaseError) else DirectLoad(codec, d, addr)
  {
    if addr !in c {
      assert Raw(t, addr) == Raw(d, addr);
    }
  }

  lemma DirtyStore<R>(codec: Codec<R>, c: Cache<R>, addr: string, record: R)
    ensures Dirty(codec, CachedStore(c, addr, record)) == Dirty(codec, c)[addr := codec.serialize(record)]
  {
  }

  lemma OverlayStore<R>(codec: Codec<R>, t: Table, c: Cache<R>, addr: string, record: R)
    ensures Overlay(codec, t, CachedStore(c, addr, record)) == DirectStore(codec, Overlay(codec, t, c), addr, record)
  {
    DirtyStore(codec, c, addr, record);
    WithAllAdd(t, Dirty(codec, c), addr, codec.serialize(record));
  }

  lemma StoreRefines<R(!new)>(codec: Codec<R>, t: Table, c: Cache<R>, d: Table, addr: string, record: R)
    requires RoundTrips(codec) && StandsFor(codec, t, c, d)
    ensures StandsFor(codec, t, CachedStore(c, addr, record), DirectStore(codec, d, addr, record))
  {
    var c', d' := CachedStore(c, addr, record), DirectStore(codec, d, addr, record);
    OverlayStore(codec, t, c, addr, record);
    forall a | a in c'
      ensures DirectLoad(codec, d', a) == Ok(c'[a].record)
    {
      if a != addr {
        assert Raw(d', a) == Raw(d, a);
      }
    }
  }

  lemma FlushRefines<R>(codec: Codec<R>, t: Table, c: Cache<R>, d: Table)
    requires StandsFor(codec, t, c, d)
    ensures Overlay(codec, t, c) == d && StandsFor(codec, d, map[], d)
  {
    var none: Cache<R> := map[];
    assert Dirty(codec, none) == map[];
  }

  /** ContainsSession asks the table and not the cache.  It is right exactly for the addresses
      that are not waiting to be written for the first time. */
  lemma ContainsRightIff<R>(codec: Codec<R>, t: Table, c: Cache<R>, d: Table, addr: string)
    requires StandsFor(codec, t, c, d)
    ensures (addr in t <==> addr in d) <==> !(addr in c && c[addr].dirty && addr !in t)
  {
    assert addr in Dirty(codec, c) <==> addr in c && c[addr].dirty;
  }

  // ---------------------------------------------------------------- runs

  datatype Op<R> = Load(addr: string, fault: bool) | Store(addr: string, record: R) | Flush(fault: bool)

  datatype Reply<R> = Loaded(result: Result<R, LoadError>) | Done | Failed

  datatype Cached<R> = Cached(t: Table, c: Cache<R>)

  function Next<R>(codec: Codec<R>, s: Cached<R>, op: Op<R>): Cached<R> {
    match op
    case Load(_, _) => s
    case Store(addr, record) => s.(c := CachedStore(s.c, addr, record))
    case Flush(fault) => if fault && Dirty(codec, s.c) != map[] then s else Cached(Overlay(codec, s.t, s.c), map[])
  }

  function ReplyOf<R>(codec: Codec<R>, s: Cached<R>, op: Op<R>): Reply<R> {
    match op
    case Load(addr, fault) => Loaded(CachedLoad(codec, s.t, s.c, addr, fault))
    case Store(_, _) => Done
    case Flush(fault) => if fault && Dirty(codec, s.c) != map[] then Failed else Done
  }

  function ReferenceNext<R>(codec: Codec<R>, d: Table, op: Op<R>): Table {
    if op.Store? then DirectStore(codec, d, op.addr, op.record) else d
  }

  function ReferenceReply<R>(codec: Codec<R>, d: Table, op: Op<R>): Reply<R> {
    if op.Load? then Loaded(DirectLoad(codec, d, op.addr)) else Done
  }

  function Run<R>(codec: Codec<R>, s: Cached<R>, ops: seq<Op<R>>): Cached<R>
    decreases |ops|
  {
    if ops == [] then s else Run(codec, Next(codec, s, ops[0]), ops[1..])
  }

  function Replies<R>(codec: Codec<R>, s: Cached<R>, ops: seq<Op<R>>): seq<Reply<R>>
    decreases |ops|
  {
    if ops == [] then [] else [ReplyOf(codec, s, ops[0])] + Replies(codec, Next(codec, s, ops[0]), ops[1..])
  }

  function ReferenceRun<R>(codec: Codec<R>, d: Table, ops: seq<Op<R>>): Table
    decreases |ops|
  {
    if ops == [] then d else ReferenceRun(codec, ReferenceNext(codec, d, ops[0]), ops[1..])
  }

  function ReferenceReplies<R>(codec: Codec<R>, d: Table, ops: seq<Op<R>>): seq<Reply<R>>
    decreases |ops|
  {
    if ops == [] then []
    else [ReferenceReply(codec, d, ops[0])] + ReferenceReplies(codec, ReferenceNext(codec, d, ops[0]), ops[1..])
  }

  /** A reply that owns up to a database failure of that very call. */
  predicate Excused<R(==)>(op: Op<R>, reply: Reply<R>) {
    (op.Load? && op.fault && reply == Loaded(Err(DatabaseError))) || (op.Flush? && op.fault && reply == Failed)
  }

  lemma StepRefines<R(!new)>(codec: Codec<R>, s: Cached<R>, d: Table, op: Op<R>)
    requires RoundTrips(codec) && StandsFor(codec, s.t, s.c, d)
    ensures var s' := Next(codec, s, op); StandsFor(codec, s'.t, s'.c, ReferenceNext(codec, d, op))
    ensures ReplyOf(codec, s, op) == ReferenceReply(codec, d, op) || Excused(op, ReplyOf(codec, s, op))
  {
    match op
    case Load(addr, fault) => LoadRefines(codec, s.t, s.c, d, addr, fault);
    case Store(addr, record) => StoreRefines(codec, s.t, s.c, d, addr, record);
    case Flush(_) => FlushRefines(codec, s.t, s.c, d);
  }

  lemma {:induction false} RunRefines<R(!new)>(codec: Codec<R>, s: Cached<R>, d: Table, ops: seq<Op<R>>)
    requires RoundTrips(codec) && StandsFor(codec, s.t, s.c, d)
    ensures var s' := Run(codec, s, ops); StandsFor(codec, s'.t, s'.c, ReferenceRun(codec, d, ops))
    ensures |Replies(codec, s, ops)| == |ReferenceReplies(codec, d, ops)| == |ops|
    ensures forall i :: 0 <= i < |ops| ==>
              || Replies(codec, s, ops)[i] == ReferenceReplies(codec, d, ops)[i]
              || Excused(ops[i], Replies(codec, s, ops)[i])
    decreases |ops|
  {
    if ops != [] {
      var op := ops[0];
      StepRefines(codec, s, d, op);
      RunRefines(codec, Next(codec, s, op), ReferenceNext(codec, d, op), ops[1..]);
    }
  }

  /** A stored record is loaded back at once, working database or not, and a flush leaves its
      serialized form in the table, from where it is loaded back as well. */
  lemma ReadsOwnStore<R(!new)>(codec: Codec<R>, s: Cached<R>, addr: string, record: R, fault: bool)
    requires RoundTrips(codec)
    ensures var s' := Next(codec, s, Store(addr, record));
            && s'.t == s.t && ReplyOf(codec, s', Load(addr, fault)) == Loaded(Ok(record))
            && var flushed := Next(codec, s', Flush(false));
               && addr in flushed.t && flushed.t[addr] == Some(codec.serialize(record))
               && ReplyOf(codec, flushed, Load(addr, false)) == Loaded(Ok(record))
  {
    OverlayStore(codec, s.t, s.c, addr, record);
  }

  /** One cached context from prefetch to flush: whatever was prefetched, loaded, stored and
      flushed in between, every load answers as without a cache, and the final successful
      flush leaves the very table that writing through would have left. */
  lemma ContextIsTransparent<R(!new)>(codec: Codec<R>, t: Table, addrs: set<string>, ops: seq<Op<R>>)
    requires RoundTrips(codec)
    ensures var s := Cached(t, Prefetch(codec, t, addrs));
            && Next(codec, Run(codec, s, ops), Flush(false)) == Cached(ReferenceRun(codec, t, ops), map[])
            && |Replies(codec, s, ops)| == |ReferenceReplies(codec, t, ops)| == |ops|
            && forall i :: 0 <= i < |ops| ==>
                 || Replies(codec, s, ops)[i] == ReferenceReplies(codec, t, ops)[i]
                 || Excused(ops[i], Replies(codec, s, ops)[i])
  {
    PrefetchStandsFor(codec, t, addrs);
    RunRefines(codec, Cached(t, Prefetch(codec, t, addrs)), t, ops);
  }
}

/** What callers of the LID map see under concurrency: coherent caches whenever no writer is in,
    and answers that were true at some instant of the call. */
module LidLinear {
  import opened Sql
  import opened LidTable
  import opened LidCache
  import opened LidSteps

  ghost predicate Behaviour(trace: seq<Sys>, schedule: seq<Tid>) {
    && |trace| == |schedule| + 1
    && Init(trace[0])
    && forall i :: 0 <= i < |schedule| ==> Next(trace[i], trace[i + 1], schedule[i])
  }

  lemma {:induction false} BehaviourInv(trace: seq<Sys>, schedule: seq<Tid>, i: nat)
    requires Behaviour(trace, schedule) && i < |trace|
    ensures Inv(trace[i])
  {
    if i == 0 {
      InitInv(trace[0]);
    } else {
      BehaviourInv(trace, schedule, i - 1);
      assert Next(trace[i - 1], trace[i - 1 + 1], schedule[i - 1]);
      NextKeepsInv(trace[i - 1], trace[i], schedule[i - 1]);
    }
  }

  /** `named` is a constant, and `bad` only grows. */
  lemma FlagsBefore(trace: seq<Sys>, schedule: seq<Tid>, i: nat)
    requires Behaviour(trace, schedule) && 0 < i < |trace|
    ensures trace[i].data.named == trace[i - 1].data.named
    ensures trace[i - 1].data.bad <= trace[i].data.bad
  {
    BehaviourInv(trace, schedule, i - 1);
    assert Next(trace[i - 1], trace[i - 1 + 1], schedule[i - 1]);
    var t := schedule[i - 1];
    StepOrderly(trace[i - 1].data, trace[i - 1].pc[t], trace[i].data, trace[i].pc[t]);
  }

  /** Whenever no writer holds the lock, the caches agree with the durable table about every
      user that no failed transaction has touched; and they are coherent if there was none such
      and only named users are put. */
  lemma CoherentWheneverUnlocked(trace: seq<Sys>, schedule: seq<Tid>, i: nat)
    requires Behaviour(trace, schedule) && i < |trace| && trace[i].writer.None?
    ensures trace[i].data.mem.table == trace[i].data.committed
    ensures RightExcept(trace[i].data.mem, trace[i].data.bad)
    ensures trace[i].data.named && trace[i].data.bad == {} ==> Coherent(trace[i].data.mem)
  {
    BehaviourInv(trace, schedule, i);
    RightIsExceptNone(trace[i].data.mem);
  }

  /** What a caller waits for: a single lookup, or the answer for one PN of a bulk lookup. */
  datatype Call = Single(dir: Direction, user: string) | PartOf(users: set<string>, user: string)

  /** What the table answers to it. */
  ghost function Truth(t: Table, call: Call): string {
    match call
    case Single(dir, user) => Query(t, dir, user)
    case PartOf(_, user) => LidOf(t, user)
  }

  /** Thread states that belong to one call, from call to return. */
  predicate InCall(p: PC, call: Call) {
    match call
    case Single(dir, user) =>
      || (p.Unlocking? && p.after.Answered? && p.after.dir == dir && p.after.user == user)
      || (OfLookup(p) && p.dir == dir && p.user == user)
    case PartOf(users, _) =>
      || (p.Unlocking? && p.after.BulkDone? && p.after.users == users)
      || (OfBulk(p) && p.users == users)
  }

  /** The answer is fixed. */
  predicate Decided(p: PC, call: Call, answer: string) {
    match call
    case Single(dir, user) =>
      || p == ReadDone(dir, user, Some(answer))
      || p == Queried(dir, user, answer)
      || p == Unlocking(Answered(dir, user, answer))
      || p == Answered(dir, user, answer)
    case PartOf(users, user) =>
      match p
      case BulkSplit(us, got, missing) => us == users && user !in missing && Get(got, user) == answer
      case BulkGap(us, got, missing) => us == users && user !in missing && Get(got, user) == answer
      case BulkScanning(us, got, rows) =>
        us == users && (if user in rows then rows[user] else Get(got, user)) == answer
      case Unlocking(BulkDone(us, got)) => us == users && Get(got, user) == answer
      case BulkDone(us, got) => us == users && Get(got, user) == answer
      case _ => false
  }

  /** From instant k to instant j the thread is inside this one call, and at instant k the
      durable table gives it this answer. */
  ghost predicate TrueDuringCall(trace: seq<Sys>, t: Tid, k: nat, j: nat, call: Call, answer: string) {
    && k <= j < |trace|
    && (forall m :: k <= m <= j ==> t in trace[m].pc && InCall(trace[m].pc[t], call))
    && Truth(trace[k].data.committed, call) == answer
  }

  /** A call about a user that no failed transaction has touched. */
  predicate Proper(d: Data, call: Call) {
    call.user !in d.bad && (call.PartOf? ==> call.user in call.users)
  }

  lemma LookupDecides(d: Data, p: PC, d': Data, p': PC, call: Call, answer: string)
    requires OfLookup(p) && LookupStep(d, p, d', p') && Proper(d, call) && Decided(p', call, answer)
    requires HoldsRead(p) || HoldsWrite(p) ==> WriterState(d, p)
    ensures InCall(p, call) && (Decided(p, call, answer) || Truth(d.committed, call) == answer)
  {
    if p.Reading? {
      LookupExact(d.mem, p.dir, p.user, false);
    }
  }

  /** The section that decides about this PN in a bulk lookup starts here. */
  predicate ReadsTable(p: PC, call: Call) {
    p.BulkReading? || (p.BulkGap? && call.user in p.missing)
  }

  lemma BulkReadingDecides(m: Store, users: set<string>, user: string)
    requires UniquePn(m.table) && RightAt(m, user) && user in users && user !in Undecided(m, users)
    ensures Get(CachedLids(m, users), user) == LidOf(m.table, user)
  {
    LookupExact(m, PnToLid, user, false);
  }

  lemma BulkDecides(d: Data, p: PC, d': Data, p': PC, call: Call, answer: string)
    requires OfBulk(p) && BulkStep(d, p, d', p') && Proper(d, call) && Decided(p', call, answer)
    requires Carries(p, d.named) && Settled(d)
    ensures InCall(p, call)
    ensures Decided(p, call, answer) || (ReadsTable(p, call) && Truth(d.committed, call) == answer)
  {
    if p.BulkReading? {
      BulkReadingDecides(d.mem, p.users, call.user);
    } else if p.BulkGap? && call.user in p.missing {
      AnswerIsRow(d.mem.table, call.user);
    }
  }

  /** Only a call itself, or its way out of the write lock, fixes its answer. */
  lemma OthersDecideNothing(d: Data, p: PC, d': Data, p': PC, call: Call, answer: string)
    requires Local(d, p, d', p') && Carries(p, d.named) && Decided(p', call, answer)
    ensures OfLookup(p) || OfBulk(p) || p == Unlocking(p')
  {
  }

  lemma DecidedStep(s: Sys, s': Sys, u: Tid, t: Tid, call: Call, answer: string)
    requires Inv(s) && Next(s, s', u) && s.data.bad <= s'.data.bad
    requires t in s'.pc && Decided(s'.pc[t], call, answer) && Proper(s'.data, call)
    ensures t in s.pc && InCall(s.pc[t], call)
    ensures Decided(s.pc[t], call, answer) || Truth(s.data.committed, call) == answer
  {
    if u == t {
      OthersDecideNothing(s.data, s.pc[t], s'.data, s'.pc[t], call, answer);
      if OfLookup(s.pc[t]) {
        LookupDecides(s.data, s.pc[t], s'.data, s'.pc[t], call, answer);
      } else if OfBulk(s.pc[t]) {
        BulkDecides(s.data, s.pc[t], s'.data, s'.pc[t], call, answer);
      }
    } else {
      DecidedInside(s.pc[t], call, answer);
    }
  }

  lemma DecidedInside(p: PC, call: Call, answer: string)
    requires Decided(p, call, answer)
    ensures InCall(p, call)
  {
  }

  /** An answer that stands at instant j stood before, or was true one instant before. */
  lemma DecidedBefore(trace: seq<Sys>, schedule: seq<Tid>, t: Tid, j: nat, call: Call, answer: string)
    requires Behaviour(trace, schedule) && 0 < j < |trace|
    requires t in trace[j].pc && Decided(trace[j].pc[t], call, answer) && Proper(trace[j].data, call)
    ensures t in trace[j - 1].pc && InCall(trace[j - 1].pc[t], call)
    ensures Decided(trace[j - 1].pc[t], call, answer) || Truth(trace[j - 1].data.committed, call) == answer
  {
    BehaviourInv(trace, schedule, j - 1);
    FlagsBefore(trace, schedule, j);
    assert Next(trace[j - 1], trace[j - 1 + 1], schedule[j - 1]);
    DecidedStep(trace[j - 1], trace[j], schedule[j - 1], t, call, answer);
  }

  lemma {:induction false} DecidedWasTrue(trace: seq<Sys>, schedule: seq<Tid>, t: Tid, j: nat,
                                          call: Call, answer: string)
    returns (k: nat)
    requires Behaviour(trace, schedule) && j < |trace|
    requires t in trace[j].pc && Decided(trace[j].pc[t], call, answer) && Proper(trace[j].data, call)
    ensures TrueDuringCall(trace, t, k, j, call, answer)
  {
    k := j - 1;
    DecidedBefore(trace, schedule, t, j, call, answer);
    FlagsBefore(trace, schedule, j);
    if Decided(trace[j - 1].pc[t], call, answer) {
      k := DecidedWasTrue(trace, schedule, t, j - 1, call, answer);
    }
  }

  /** Each single lookup answers what the durable table said at some instant between its call
      and its return, whatever other threads put or fill in the gap between its two locks. */
  lemma LookupLinearizable(trace: seq<Sys>, schedule: seq<Tid>, t: Tid, j: nat,
                           dir: Direction, user: string, answer: string)
    requires Behaviour(trace, schedule) && j < |trace|
    requires t in trace[j].pc && trace[j].pc[t] == Answered(dir, user, answer)
    requires user !in trace[j].data.bad
    ensures exists k :: TrueDuringCall(trace, t, k, j, Single(dir, user), answer)
  {
    var k := DecidedWasTrue(trace, schedule, t, j, Single(dir, user), answer);
  }

  /** A bulk lookup keeps the same promise for each of its PNs, but each may have an instant of
      its own: LidBulkRace.BulkWholeIff says when the whole result has one. */
  lemma BulkLinearizable(trace: seq<Sys>, schedule: seq<Tid>, t: Tid, j: nat,
                         users: set<string>, got: map<string, string>, user: string)
    requires Behaviour(trace, schedule) && j < |trace| && user in users
    requires t in trace[j].pc && trace[j].pc[t] == BulkDone(users, got)
    requires user !in trace[j].data.bad
    ensures exists k :: TrueDuringCall(trace, t, k, j, PartOf(users, user), Get(got, user))
  {
    var k := DecidedWasTrue(trace, schedule, t, j, PartOf(users, user), Get(got, user));
  }

  // ---------------------------------------------------------------- whole bulk results

  ghost predicate AllDecided(p: PC, users: set<string>, got: map<string, string>) {
    forall user :: user in users ==> Decided(p, PartOf(users, user), Get(got, user))
  }

  /** The table gives all of the answers. */
  ghost predicate AllTrue(t: Table, users: set<string>, got: map<string, string>) {
    forall user :: user in users ==> LidOf(t, user) == Get(got, user)
  }

  /** The cache has answered all of the users or none of them. */
  predicate Unmixed(p: PC, users: set<string>) {
    p.BulkGap? ==> p.missing == users
  }

  lemma AllDecidedStep(s: Sys, s': Sys, u: Tid, t: Tid, users: set<string>, got: map<string, string>)
    requires Inv(s) && Next(s, s', u) && s.data.bad <= s'.data.bad && users !! s'.data.bad
    requires t in s.pc && t in s'.pc && AllDecided(s'.pc[t], users, got) && Unmixed(s.pc[t], users)
    ensures AllDecided(s.pc[t], users, got) || AllTrue(s.data.committed, users, got)
  {
    if u == t {
      forall user | user in users
        ensures Decided(s.pc[t], PartOf(users, user), Get(got, user))
             || (ReadsTable(s.pc[t], PartOf(users, user)) && LidOf(s.data.committed, user) == Get(got, user))
      {
        BulkStepOf(s, s', t, PartOf(users, user), Get(got, user));
      }
    }
  }

  lemma BulkStepOf(s: Sys, s': Sys, t: Tid, call: Call, answer: string)
    requires Inv(s) && Next(s, s', t) && s.data.bad <= s'.data.bad
    requires call.PartOf? && Decided(s'.pc[t], call, answer) && Proper(s'.data, call)
    ensures Decided(s.pc[t], call, answer)
         || (ReadsTable(s.pc[t], call) && Truth(s.data.committed, call) == answer)
  {
    OthersDecideNothing(s.data, s.pc[t], s'.data, s'.pc[t], call, answer);
    if OfBulk(s.pc[t]) {
      BulkDecides(s.data, s.pc[t], s'.data, s'.pc[t], call, answer);
    } else if OfLookup(s.pc[t]) {
      LookupDecides(s.data, s.pc[t], s'.data, s'.pc[t], call, answer);
    }
  }

  lemma AllDecidedBefore(trace: seq<Sys>, schedule: seq<Tid>, t: Tid, j: nat,
                         users: set<string>, got: map<string, string>)
    requires Behaviour(trace, schedule) && 0 < j < |trace|
    requires users !! trace[j].data.bad
    requires t in trace[j - 1].pc && Unmixed(trace[j - 1].pc[t], users)
    requires t in trace[j].pc && AllDecided(trace[j].pc[t], users, got)
    ensures users !! trace[j - 1].data.bad
    ensures AllDecided(trace[j - 1].pc[t], users, got) || AllTrue(trace[j - 1].data.committed, users, got)
  {
    BehaviourInv(trace, schedule, j - 1);
    FlagsBefore(trace, schedule, j);
    assert Next(trace[j - 1], trace[j - 1 + 1], schedule[j - 1]);
    AllDecidedStep(trace[j - 1], trace[j], schedule[j - 1], t, users, got);
  }

  lemma {:induction false} AllWereTrue(trace: seq<Sys>, schedule: seq<Tid>, t: Tid, i: nat, j: nat,
                                       users: set<string>, got: map<string, string>)
    returns (k: nat)
    requires Behaviour(trace, schedule) && i <= j < |trace| && users != {}
    requires forall m :: i <= m <= j ==> t in trace[m].pc && Unmixed(trace[m].pc[t], users)
    requires trace[i].pc[t] == BulkCalled(users) || trace[i].pc[t] == BulkReading(users)
    requires AllDecided(trace[j].pc[t], users, got)
    requires users !! trace[j].data.bad
    ensures i <= k <= j && AllTrue(trace[k].data.committed, users, got)
    decreases j
  {
    var user :| user in users;
    assert Decided(trace[j].pc[t], PartOf(users, user), Get(got, user));
    assert i < j;
    AllDecidedBefore(trace, schedule, t, j, users, got);
    k := j - 1;
    if !AllTrue(trace[k].data.committed, users, got) {
      k := AllWereTrue(trace, schedule, t, i, j - 1, users, got);
    }
  }

  /** A bulk lookup that finds all of its PNs in the cache, or none of them, answers as a whole
      what the durable table said at one instant of the call. */
  lemma BulkWholeLinearizable(trace: seq<Sys>, schedule: seq<Tid>, t: Tid, i: nat, j: nat,
                              users: set<string>, got: map<string, string>)
    requires Behaviour(trace, schedule) && i <= j < |trace|
    requires forall m :: i <= m <= j ==> t in trace[m].pc && Unmixed(trace[m].pc[t], users)
    requires trace[i].pc[t] == BulkCalled(users) || trace[i].pc[t] == BulkReading(users)
    requires trace[j].pc[t] == BulkDone(users, got)
    requires users !! trace[j].data.bad
    ensures exists k :: i <= k <= j && AllTrue(trace[k].data.committed, users, got)
  {
    if users == {} {
      assert AllTrue(trace[j].data.committed, users, got);
    } else {
      var k := AllWereTrue(trace, schedule, t, i, j, users, got);
    }
  }
}

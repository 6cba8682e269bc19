/** What puts do under concurrency: a put that returns has taken effect at one instant of its
    call, as a whole, and nothing else ever changes the durable table. */
module LidCommits {
  import opened Sql
  import opened LidTable
  import opened LidCache
  import opened LidPuts
  import opened LidBatch
  import opened LidSteps
  import opened LidLinear

  /** Thread states that belong to one put, from call to return. */
  predicate InRequest(p: PC, request: seq<Mapping>) {
    || ((p.PutCalled? || p.PutLocked?) && p.request == request)
    || (p.InTxn? && p.txn.request == request)
    || Returning(p, request)
  }

  /** Its transaction is committed, or there was nothing to put. */
  predicate Returning(p: PC, request: seq<Mapping>) {
    p == PutDone(request) || p == Unlocking(PutDone(request))
  }

  /** From the store m the request leaves the table t. */
  ghost predicate Leaves(m: Store, request: seq<Mapping>, t: Table) {
    PutManyNext(m, request, NoFault).table == t
  }

  /** t is the durable table after the request, as a whole: what it leaves from caches that are
      right about every user that no failed transaction has touched. */
  ghost predicate Effect(d: Data, request: seq<Mapping>, t: Table) {
    exists m: Store :: m.table == d.committed && RightExcept(m, d.bad) && Leaves(m, request, t)
  }

  lemma CommitMakes(d: Data, p: PC, d': Data, p': PC, request: seq<Mapping>)
    requires WriterState(d, p) && HoldsWrite(p) && PutStep(d, p, d', p') && p' == Unlocking(PutDone(request))
    ensures InRequest(p, request) && Effect(d, request, d'.committed)
  {
    if p.InTxn? {
      var txn := p.txn;
      assert txn.done + [] == txn.done;
      assert Leaves(txn.start, request, d'.committed);
    } else {
      assert Leaves(d.mem, request, d'.committed);
    }
  }

  /** The step that makes a put return is the one that commits. */
  lemma ReturnStep(s: Sys, s': Sys, u: Tid, t: Tid, request: seq<Mapping>)
    requires Inv(s) && Next(s, s', u) && t in s'.pc && Returning(s'.pc[t], request)
    ensures t in s.pc && InRequest(s.pc[t], request)
    ensures !Returning(s.pc[t], request) ==> u == t && Effect(s.data, request, s'.data.committed)
  {
    if u == t {
      StepOrderly(s.data, s.pc[t], s'.data, s'.pc[t]);
      if OfPut(s.pc[t]) && HoldsWrite(s.pc[t]) {
        CommitMakes(s.data, s.pc[t], s'.data, s'.pc[t], request);
      }
    }
  }

  /** At step k thread t commits this request, and from then up to instant j it is inside the call. */
  ghost predicate TakesEffect(trace: seq<Sys>, schedule: seq<Tid>, t: Tid, k: nat, j: nat, request: seq<Mapping>)
  {
    && |trace| == |schedule| + 1 && k < j < |trace| && schedule[k] == t
    && (forall m :: k <= m <= j ==> t in trace[m].pc && InRequest(trace[m].pc[t], request))
    && Effect(trace[k].data, request, trace[k + 1].data.committed)
  }

  lemma ReturnsFrom(trace: seq<Sys>, schedule: seq<Tid>, t: Tid, j: nat, request: seq<Mapping>)
    requires Behaviour(trace, schedule) && j < |trace| && t in trace[j].pc && Returning(trace[j].pc[t], request)
    ensures 0 < j && t in trace[j - 1].pc && InRequest(trace[j - 1].pc[t], request)
    ensures !Returning(trace[j - 1].pc[t], request) ==>
              schedule[j - 1] == t && Effect(trace[j - 1].data, request, trace[j].data.committed)
  {
    assert j > 0;
    BehaviourInv(trace, schedule, j - 1);
    assert Next(trace[j - 1], trace[j - 1 + 1], schedule[j - 1]);
    ReturnStep(trace[j - 1], trace[j], schedule[j - 1], t, request);
  }

  /** Where a put is returning, it was before, or has just committed. */
  ghost predicate Arrives(trace: seq<Sys>, schedule: seq<Tid>, t: Tid, j: nat, request: seq<Mapping>)
    requires j < |trace| == |schedule| + 1
  {
    t in trace[j].pc && Returning(trace[j].pc[t], request) ==>
      && 0 < j && t in trace[j - 1].pc && InRequest(trace[j - 1].pc[t], request)
      && (!Returning(trace[j - 1].pc[t], request) ==>
            schedule[j - 1] == t && Effect(trace[j - 1].data, request, trace[j].data.committed))
  }

  lemma {:induction false} TraceBack(trace: seq<Sys>, schedule: seq<Tid>, t: Tid, j: nat, request: seq<Mapping>)
    returns (k: nat)
    requires j < |trace| == |schedule| + 1 && t in trace[j].pc && Returning(trace[j].pc[t], request)
    requires forall m :: 0 <= m <= j ==> Arrives(trace, schedule, t, m, request)
    ensures TakesEffect(trace, schedule, t, k, j, request)
    decreases j
  {
    assert Arrives(trace, schedule, t, j, request);
    if Returning(trace[j - 1].pc[t], request) {
      k := TraceBack(trace, schedule, t, j - 1, request);
    } else {
      k := j - 1;
    }
  }

  lemma EffectBefore(trace: seq<Sys>, schedule: seq<Tid>, t: Tid, j: nat, request: seq<Mapping>)
    returns (k: nat)
    requires Behaviour(trace, schedule) && j < |trace| && t in trace[j].pc && Returning(trace[j].pc[t], request)
    ensures TakesEffect(trace, schedule, t, k, j, request)
  {
    forall m | 0 <= m <= j
      ensures Arrives(trace, schedule, t, m, request)
    {
      if t in trace[m].pc && Returning(trace[m].pc[t], request) {
        ReturnsFrom(trace, schedule, t, m, request);
      }
    }
    k := TraceBack(trace, schedule, t, j, request);
  }

  /** A put that returns has changed the durable table in a single step of its call, by exactly
      its request. */
  lemma PutLinearizable(trace: seq<Sys>, schedule: seq<Tid>, t: Tid, j: nat, request: seq<Mapping>)
    requires Behaviour(trace, schedule) && j < |trace|
    requires t in trace[j].pc && trace[j].pc[t] == PutDone(request)
    ensures exists k: nat :: TakesEffect(trace, schedule, t, k, j, request)
  {
    var k := EffectBefore(trace, schedule, t, j, request);
  }

  lemma OthersKeepTable(d: Data, p: PC, d': Data, p': PC)
    requires Local(d, p, d', p') && !p.InTxn?
    ensures d'.committed == d.committed
  {
    if OfLookup(p) {
      LookupKeepsTable(d, p, d', p');
    } else if p.FillCalled? || p.Filling? {
      FillKeepsTable(d, p, d', p');
    } else if OfBulk(p) {
      BulkKeepsTable(d, p, d', p');
    }
  }

  lemma LookupKeepsTable(d: Data, p: PC, d': Data, p': PC)
    requires LookupStep(d, p, d', p')
    ensures d'.committed == d.committed
  {
  }

  lemma FillKeepsTable(d: Data, p: PC, d': Data, p': PC)
    requires FillStep(d, p, d', p')
    ensures d'.committed == d.committed
  {
  }

  lemma BulkKeepsTable(d: Data, p: PC, d': Data, p': PC)
    requires BulkStep(d, p, d', p')
    ensures d'.committed == d.committed
  {
  }

  lemma WriterCommits(d: Data, p: PC, d': Data, p': PC) returns (request: seq<Mapping>)
    requires WriterState(d, p) && HoldsWrite(p) && Local(d, p, d', p') && d'.committed != d.committed
    ensures p' == Unlocking(PutDone(request)) && Effect(d, request, d'.committed)
  {
    if !p.InTxn? {
      OthersKeepTable(d, p, d', p');
    }
    request := p.txn.request;
    CommitMakes(d, p, d', p', request);
  }

  /** And whenever the durable table changes, a put is about to return that has asked for it. */
  lemma OnlyPutsCommit(trace: seq<Sys>, schedule: seq<Tid>, i: nat)
    requires Behaviour(trace, schedule) && i < |schedule|
    requires trace[i + 1].data.committed != trace[i].data.committed
    ensures schedule[i] in trace[i + 1].pc
    ensures exists request :: trace[i + 1].pc[schedule[i]] == Unlocking(PutDone(request)) &&
              Effect(trace[i].data, request, trace[i + 1].data.committed)
  {
    var t := schedule[i];
    BehaviourInv(trace, schedule, i);
    assert Next(trace[i], trace[i + 1], t);
    StepOrderly(trace[i].data, trace[i].pc[t], trace[i + 1].data, trace[i + 1].pc[t]);
    var request := WriterCommits(trace[i].data, trace[i].pc[t], trace[i + 1].data, trace[i + 1].pc[t]);
  }

  lemma {:induction false} BadGrows(trace: seq<Sys>, schedule: seq<Tid>, k: nat, j: nat)
    requires Behaviour(trace, schedule) && k <= j < |trace|
    ensures trace[k].data.bad <= trace[j].data.bad
    decreases j
  {
    if k < j {
      FlagsBefore(trace, schedule, j);
      BadGrows(trace, schedule, k, j - 1);
    }
  }

  /** If the request does not contradict itself, and no failed transaction has touched its phone
      numbers, that step leaves exactly its pairs and the rows that share no user with them. */
  lemma PutMerges(trace: seq<Sys>, schedule: seq<Tid>, t: Tid, j: nat, request: seq<Mapping>)
    requires Behaviour(trace, schedule) && j < |trace|
    requires t in trace[j].pc && trace[j].pc[t] == PutDone(request)
    requires Consistent(Pairs(request)) && NonEmptyPairs(Pairs(request))
    requires forall a :: a in Pairs(request) ==> a.1 !in trace[j].data.bad
    ensures exists k: nat :: TakesEffect(trace, schedule, t, k, j, request) &&
              MergesEntries(trace[k].data.committed, request, trace[k + 1].data.committed)
  {
    var k := EffectBefore(trace, schedule, t, j, request);
    BadGrows(trace, schedule, k, j);
    var d := trace[k].data;
    var m: Store :| m.table == d.committed && RightExcept(m, d.bad) &&
                    Leaves(m, request, trace[k + 1].data.committed);
    BatchMerges(m, d.bad, request, NoFault);
    MergeOfEntries(d.committed, request, trace[k + 1].data.committed);
  }
}

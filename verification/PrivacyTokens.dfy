/** The privacy-token merge: newest timestamp wins, a missing sender timestamp keeps the old one. */
module PrivacyTokens {
  import opened Sql
  import opened MassInsert

  /** One put.  `user` is the JID without its device, times are Unix seconds, and a zero
      sender time is None. */
  datatype Token = Token(user: string, token: Bytes, ts: int, sender: Option<int>)

  datatype Row = Row(token: Bytes, ts: int, sender: Option<int>)

  /** The account's rows of `privacy_tokens`. */
  type Table = map<string, Row>

  /** ON CONFLICT DO UPDATE SET ... WHERE EXCLUDED.timestamp >= privacy_tokens.timestamp. */
  function Merge(t: Table, p: Token): Table {
    if p.user !in t then t[p.user := Row(p.token, p.ts, p.sender)]
    else if p.ts >= t[p.user].ts then
      t[p.user := Row(p.token, p.ts, if p.sender.Some? then p.sender else t[p.user].sender)]
    else t
  }

  function MergeAll(t: Table, ps: seq<Token>): Table {
    if ps == [] then t else Merge(MergeAll(t, ps[..|ps| - 1]), ps[|ps| - 1])
  }

  lemma {:induction false} MergeAppend(t: Table, a: seq<Token>, b: seq<Token>)
    ensures MergeAll(t, a + b) == MergeAll(MergeAll(t, a), b)
  {
    if b == [] {
      assert a + b == a;
    } else {
      MergeAppend(t, a, b[..|b| - 1]);
      assert (a + b)[..|a + b| - 1] == a + b[..|b| - 1];
    }
  }

  // ---------------------------------------------------------------- the statement

  function SenderValue(p: Token): Value {
    if p.sender.None? then Null else Num(p.sender.value)
  }

  function TokenRow(our: string, p: Token): seq<Value> {
    [Text(our), Text(p.user), Blob(p.token), Num(p.ts), SenderValue(p)]
  }

  function TokenRows(our: string, ps: seq<Token>): (rows: seq<seq<Value>>)
    ensures |rows| == |ps|
  {
    seq(|ps|, i requires 0 <= i < |ps| => TokenRow(our, ps[i]))
  }

  /** The put that a resolved row stands for. */
  function RowToken(row: seq<Value>): Option<Token> {
    if |row| == 5 && row[1].Text? && row[2].Blob? && row[3].Num? && (row[4].Num? || row[4].Null?) then
      Some(Token(row[1].text, row[2].bytes, row[3].n, if row[4].Null? then None else Some(row[4].n)))
    else None
  }

  /** Executing the statement: its rows are merged in order, each seeing the ones before. */
  function Execute(t: Table, rows: seq<seq<Value>>): Table {
    if rows == [] then t
    else
      var before, p := Execute(t, rows[..|rows| - 1]), RowToken(rows[|rows| - 1]);
      if p.None? then before else Merge(before, p.value)
  }

  lemma {:induction false} ExecuteTokenRows(t: Table, our: string, ps: seq<Token>)
    ensures Execute(t, TokenRows(our, ps)) == MergeAll(t, ps)
  {
    var rows := TokenRows(our, ps);
    if ps != [] {
      var front := ps[..|ps| - 1];
      assert rows[..|rows| - 1] == TokenRows(our, front);
      ExecuteTokenRows(t, our, front);
    }
  }

  /** The placeholders of token k, behind the one for the account. */
  function TokenTuple(k: nat): seq<nat> {
    [1, k * 4 + 2, k * 4 + 3, k * 4 + 4, k * 4 + 5]
  }

  /** The four-wide layout behind the first value. */
  ghost predicate Laid(our: string, tokens: seq<Token>, values: seq<Value>) {
    && |values| == 1 + 4 * |tokens| && values[0] == Text(our)
    && forall k :: 0 <= k < |tokens| ==>
         && values[k * 4 + 1] == Text(tokens[k].user) && values[k * 4 + 2] == Blob(tokens[k].token)
         && values[k * 4 + 3] == Num(tokens[k].ts) && values[k * 4 + 4] == SenderValue(tokens[k])
  }

  lemma LaidResolves(our: string, tokens: seq<Token>, st: Statement)
    requires Laid(our, tokens, st.values) && |st.tuples| == |tokens|
    requires forall k :: 0 <= k < |tokens| ==> st.tuples[k] == TokenTuple(k)
    ensures InRange(st) && Rows(st) == TokenRows(our, tokens)
  {
    forall k | 0 <= k < |tokens|
      ensures Rows(st)[k] == TokenRow(our, tokens[k])
    {
    }
  }

  function TokenValues(p: Token): seq<Value> {
    [Text(p.user), Blob(p.token), Num(p.ts), SenderValue(p)]
  }

  /** The values of a statement, token after token. */
  function TokenArgs(our: string, tokens: seq<Token>): (args: seq<Value>)
    ensures |args| == 1 + 4 * |tokens|
  {
    if tokens == [] then [Text(our)]
    else TokenArgs(our, tokens[..|tokens| - 1]) + TokenValues(tokens[|tokens| - 1])
  }

  lemma {:induction false} TokenArgsLaid(our: string, tokens: seq<Token>)
    ensures Laid(our, tokens, TokenArgs(our, tokens))
  {
    if tokens != [] {
      TokenArgsLaid(our, tokens[..|tokens| - 1]);
    }
  }

  lemma TokensResolve(our: string, tokens: seq<Token>, st: Statement)
    requires st.values == TokenArgs(our, tokens) && |st.tuples| == |tokens|
    requires forall k :: 0 <= k < |tokens| ==> st.tuples[k] == TokenTuple(k)
    ensures InRange(st) && |st.values| == 1 + 4 * |tokens| && Rows(st) == TokenRows(our, tokens)
  {
    TokenArgsLaid(our, tokens);
    LaidResolves(our, tokens, st);
  }

  method WriteToken(args: array<Value>, baseIndex: nat, token: Token)
    requires baseIndex + 4 <= args.Length
    modifies args
    ensures args[..baseIndex + 4] == old(args[..baseIndex]) + TokenValues(token)
  {
    var sender := if token.sender.None? then Null else Num(token.sender.value);
    args[baseIndex], args[baseIndex + 1], args[baseIndex + 2], args[baseIndex + 3] :=
      Text(token.user), Blob(token.token), Num(token.ts), sender;
  }

  method LayOut(our: string, tokens: seq<Token>) returns (st: Statement)
    ensures st.values == TokenArgs(our, tokens) && |st.tuples| == |tokens|
    ensures forall k :: 0 <= k < |tokens| ==> st.tuples[k] == TokenTuple(k)
  {
    var args := new Value[1 + |tokens| * 4](_ => Null);
    var placeholders: seq<seq<nat>> := [];
    args[0] := Text(our);
    for i := 0 to |tokens|
      invariant args[..i * 4 + 1] == TokenArgs(our, tokens[..i])
      invariant |placeholders| == i
      invariant forall k :: 0 <= k < i ==> placeholders[k] == TokenTuple(k)
    {
      assert tokens[..i + 1][..i] == tokens[..i];
      WriteToken(args, i * 4 + 1, tokens[i]);
      placeholders := placeholders + [TokenTuple(i)];
    }
    assert tokens[..|tokens|] == tokens;
    st := Statement(placeholders, args[..]);
  }

  /** The placeholder arithmetic of PutPrivacyTokens, four values a token. */
  method BuildTokens(our: string, tokens: seq<Token>) returns (st: Statement)
    ensures InRange(st) && |st.values| == 1 + 4 * |tokens| && |st.tuples| == |tokens|
    ensures st.values[0] == Text(our)
    ensures forall k :: 0 <= k < |tokens| ==>
              && st.tuples[k] == [1, k * 4 + 2, k * 4 + 3, k * 4 + 4, k * 4 + 5]
              && st.values[k * 4 + 1] == Text(tokens[k].user) && st.values[k * 4 + 2] == Blob(tokens[k].token)
              && Rows(st)[k] == [Text(our), Text(tokens[k].user), Blob(tokens[k].token), Num(tokens[k].ts),
                                 if tokens[k].sender.None? then Null else Num(tokens[k].sender.value)]
    ensures Rows(st) == TokenRows(our, tokens)
  {
    st := LayOut(our, tokens);
    TokenArgsLaid(our, tokens);
    TokensResolve(our, tokens, st);
  }

  class TokenStore {
    const jid: string
    var tokens: Table

    constructor (jid: string, tokens: Table)
      ensures this.jid == jid && this.tokens == tokens
    {
      this.jid := jid;
      this.tokens := tokens;
    }

    /** Without tokens the statement has an empty VALUES list, which is a syntax error. */
    method PutPrivacyTokens(puts: seq<Token>, fault: bool) returns (ok: bool)
      modifies this
      ensures ok == (puts != [] && !fault)
      ensures !ok ==> tokens == old(tokens)
      ensures ok ==> forall user :: Merged(old(tokens), puts, user, tokens)
      ensures tokens == if ok then MergeAll(old(tokens), puts) else old(tokens)
    {
      forall user
        ensures Merged(tokens, puts, user, MergeAll(tokens, puts))
      {
        MergedRow(tokens, puts, user);
      }
      var st := BuildTokens(jid, puts);
      if st.tuples == [] || fault {
        return false;
      }
      ExecuteTokenRows(tokens, jid, puts);
      tokens := Execute(tokens, Rows(st));
      ok := true;
    }
  }

  // ---------------------------------------------------------------- what a run of puts leaves

  ghost predicate Mine(ps: seq<Token>, user: string, i: int) {
    0 <= i < |ps| && ps[i].user == user
  }

  /** Put i is the last of the user's puts with the largest timestamp. */
  ghost predicate LastNewest(ps: seq<Token>, user: string, i: int) {
    && Mine(ps, user, i)
    && forall j :: Mine(ps, user, j) ==> ps[j].ts <= ps[i].ts && (j > i ==> ps[j].ts < ps[i].ts)
  }

  /** Put i was not older than anything before it. */
  ghost predicate Accepted(ps: seq<Token>, user: string, i: int) {
    Mine(ps, user, i) && forall j :: Mine(ps, user, j) && j < i ==> ps[j].ts <= ps[i].ts
  }

  /** Put i is the last accepted one that carries a sender timestamp. */
  ghost predicate LastSender(ps: seq<Token>, user: string, i: int) {
    && Accepted(ps, user, i) && ps[i].sender.Some?
    && forall j :: Accepted(ps, user, j) && j > i ==> ps[j].sender.None?
  }

  /** What the row of `user` says about the puts. */
  ghost predicate Summarises(ps: seq<Token>, user: string, row: Row) {
    && (exists i :: LastNewest(ps, user, i) && row.token == ps[i].token && row.ts == ps[i].ts)
    && (row.sender.Some? ==> exists i :: LastSender(ps, user, i) && row.sender == ps[i].sender)
    && (row.sender.None? ==> forall i :: Accepted(ps, user, i) ==> ps[i].sender.None?)
  }

  lemma MinePrefix(front: seq<Token>, last: Token, user: string, i: int)
    ensures Mine(front + [last], user, i) <==> Mine(front, user, i) || (i == |front| && last.user == user)
    ensures Accepted(front + [last], user, i) <==>
            || Accepted(front, user, i)
            || (i == |front| && last.user == user && forall j :: Mine(front, user, j) ==> front[j].ts <= last.ts)
  {
    var ps := front + [last];
    assert forall j :: Mine(front, user, j) ==> ps[j] == front[j] && Mine(ps, user, j);
    assert forall j :: Mine(ps, user, j) && j < |front| ==> Mine(front, user, j);
  }

  /** A put that does not concern the user, or is too old to count. */
  lemma SummaryIgnores(front: seq<Token>, last: Token, user: string, row: Row)
    requires Summarises(front, user, row) && (last.user != user || last.ts < row.ts)
    ensures Summarises(front + [last], user, row)
  {
    var ps := front + [last];
    forall i {
      MinePrefix(front, last, user, i);
    }
    var i :| LastNewest(front, user, i) && row.token == front[i].token && row.ts == front[i].ts;
    assert LastNewest(ps, user, i) && ps[i] == front[i];
    assert forall k :: Accepted(ps, user, k) <==> Accepted(front, user, k);
    if row.sender.Some? {
      var k :| LastSender(front, user, k) && row.sender == front[k].sender;
      assert LastSender(ps, user, k) && ps[k] == front[k];
    }
  }

  /** A put that counts. */
  lemma SummaryAccepts(front: seq<Token>, last: Token, user: string, row: Row)
    requires Summarises(front, user, row) && last.user == user && last.ts >= row.ts
    ensures var sender := if last.sender.Some? then last.sender else row.sender;
            Summarises(front + [last], user, Row(last.token, last.ts, sender))
  {
    var ps, n := front + [last], |front|;
    forall i {
      MinePrefix(front, last, user, i);
    }
    assert Accepted(ps, user, n) && ps[n] == last;
    assert LastNewest(ps, user, n);
    if last.sender.Some? {
      assert LastSender(ps, user, n);
    } else if row.sender.Some? {
      var k :| LastSender(front, user, k) && row.sender == front[k].sender;
      assert LastSender(ps, user, k) && ps[k] == front[k];
    }
  }

  lemma SummaryStarts(front: seq<Token>, last: Token, user: string)
    requires last.user == user && forall i :: !Mine(front, user, i)
    ensures Summarises(front + [last], user, Row(last.token, last.ts, last.sender))
  {
    var ps, n := front + [last], |front|;
    forall i {
      MinePrefix(front, last, user, i);
    }
    assert ps[n] == last && LastNewest(ps, user, n) && Accepted(ps, user, n);
    if last.sender.Some? {
      assert LastSender(ps, user, n);
    }
  }

  lemma {:induction false} RowIffPut(t: Table, ps: seq<Token>, user: string)
    requires user !in t
    ensures user in MergeAll(t, ps) <==> exists i :: Mine(ps, user, i)
  {
    if ps != [] {
      var front, last := ps[..|ps| - 1], ps[|ps| - 1];
      assert ps == front + [last];
      RowIffPut(t, front, user);
      forall i {
        MinePrefix(front, last, user, i);
      }
      assert last.user == user ==> Mine(ps, user, |front|);
      assert forall i :: Mine(front, user, i) ==> Mine(ps, user, i);
    }
  }

  /** After any sequence of puts the user's row has the largest timestamp, the token of the
      last put that attains it, and the last sender timestamp among accepted puts. */
  lemma {:induction false} RowSummarises(t: Table, ps: seq<Token>, user: string)
    requires user !in t && user in MergeAll(t, ps)
    ensures Summarises(ps, user, MergeAll(t, ps)[user])
  {
    var front, last := ps[..|ps| - 1], ps[|ps| - 1];
    assert ps == front + [last];
    var before := MergeAll(t, front);
    if user !in before {
      RowIffPut(t, front, user);
      SummaryStarts(front, last, user);
    } else {
      RowSummarises(t, front, user);
      if last.user == user && last.ts >= before[user].ts {
        SummaryAccepts(front, last, user, before[user]);
      } else {
        SummaryIgnores(front, last, user, before[user]);
      }
    }
  }

  /** A row that is there already behaves like a put made first. */
  lemma {:induction false} RowIsFirstPut(t: Table, ps: seq<Token>, user: string)
    requires user in t
    ensures var first := Token(user, t[user].token, t[user].ts, t[user].sender);
            user in MergeAll(t, ps) && user in MergeAll(t - {user}, [first] + ps)
            && MergeAll(t, ps)[user] == MergeAll(t - {user}, [first] + ps)[user]
  {
    var first := Token(user, t[user].token, t[user].ts, t[user].sender);
    if ps == [] {
      assert [first] + ps == [first] && [first][..0] == [];
      assert MergeAll(t - {user}, [first]) == Merge(MergeAll(t - {user}, []), first);
    } else {
      RowIsFirstPut(t, ps[..|ps| - 1], user);
      assert ([first] + ps)[..|ps|] == [first] + ps[..|ps| - 1];
    }
  }

  /** What the puts leave for one user, who may have a row in t: it counts as a put made first. */
  ghost predicate Merged(t: Table, ps: seq<Token>, user: string, t': Table) {
    && (user in t' <==> user in t || exists i :: Mine(ps, user, i))
    && (user in t && (forall i :: !Mine(ps, user, i)) ==> t'[user] == t[user])
    && (user in t' ==>
          var earlier := if user in t then [Token(user, t[user].token, t[user].ts, t[user].sender)] else [];
          Summarises(earlier + ps, user, t'[user]))
  }

  lemma {:induction false} OthersStay(t: Table, ps: seq<Token>, user: string)
    requires forall i :: !Mine(ps, user, i)
    ensures user in MergeAll(t, ps) <==> user in t
    ensures user in t ==> MergeAll(t, ps)[user] == t[user]
  {
    if ps != [] {
      var front, last := ps[..|ps| - 1], ps[|ps| - 1];
      assert ps == front + [last] && (last.user == user ==> Mine(ps, user, |front|));
      forall i {
        MinePrefix(front, last, user, i);
      }
      assert forall i :: Mine(front, user, i) ==> Mine(ps, user, i);
      OthersStay(t, front, user);
    }
  }

  lemma MergedRow(t: Table, ps: seq<Token>, user: string)
    ensures Merged(t, ps, user, MergeAll(t, ps))
  {
    if user in t {
      var first := Token(user, t[user].token, t[user].ts, t[user].sender);
      RowIsFirstPut(t, ps, user);
      RowSummarises(t - {user}, [first] + ps, user);
    } else {
      RowIffPut(t, ps, user);
      assert [] + ps == ps;
      if user in MergeAll(t, ps) {
        RowSummarises(t, ps, user);
      }
    }
    if forall i :: !Mine(ps, user, i) {
      OthersStay(t, ps, user);
    }
  }

  // ---------------------------------------------------------------- arrival order

  /** Put i attains the largest timestamp among the user's puts, and is not older than a row that
      was there before. */
  ghost predicate Newest(t: Table, ps: seq<Token>, user: string, i: int) {
    && Mine(ps, user, i) && (user in t ==> t[user].ts <= ps[i].ts)
    && forall j :: Mine(ps, user, j) ==> ps[j].ts <= ps[i].ts
  }

  /** The row after the puts: from a newest put, or the old one if all of them are older. */
  ghost predicate IsNewest(t: Table, ps: seq<Token>, user: string, row: Row) {
    && (forall j :: Mine(ps, user, j) ==> ps[j].ts <= row.ts)
    && (user in t ==> t[user].ts <= row.ts)
    && if exists i :: Newest(t, ps, user, i)
       then exists i :: Newest(t, ps, user, i) && row.token == ps[i].token && row.ts == ps[i].ts
       else user in t && row.token == t[user].token && row.ts == t[user].ts
  }

  /** One more put does not make the row older. */
  lemma NewestPush(t: Table, front: seq<Token>, last: Token, user: string, row: Row)
    requires IsNewest(t, front, user, row)
    ensures last.user != user || last.ts < row.ts ==> IsNewest(t, front + [last], user, row)
    ensures last.user == user && last.ts >= row.ts ==>
              forall sender :: IsNewest(t, front + [last], user, Row(last.token, last.ts, sender))
  {
    var ps, n := front + [last], |front|;
    forall i {
      MinePrefix(front, last, user, i);
    }
    assert ps[n] == last && forall i :: Mine(front, user, i) ==> ps[i] == front[i];
    if last.user != user || last.ts < row.ts {
      assert forall i :: Newest(t, ps, user, i) <==> Newest(t, front, user, i);
    } else {
      assert Newest(t, ps, user, n);
    }
  }

  lemma NewestFirst(t: Table, front: seq<Token>, last: Token, user: string, sender: Option<int>)
    requires user !in t && last.user == user && forall i :: !Mine(front, user, i)
    ensures IsNewest(t, front + [last], user, Row(last.token, last.ts, sender))
  {
    var ps, n := front + [last], |front|;
    forall i {
      MinePrefix(front, last, user, i);
    }
    assert ps[n] == last && Newest(t, ps, user, n);
  }

  lemma {:induction false} StoredStays(t: Table, ps: seq<Token>, user: string)
    requires user in t
    ensures user in MergeAll(t, ps)
  {
    if ps != [] {
      StoredStays(t, ps[..|ps| - 1], user);
    }
  }

  lemma {:induction false} RowIsNewest(t: Table, ps: seq<Token>, user: string)
    requires user in MergeAll(t, ps)
    ensures IsNewest(t, ps, user, MergeAll(t, ps)[user])
  {
    if ps != [] {
      var front, last := ps[..|ps| - 1], ps[|ps| - 1];
      var before := MergeAll(t, front);
      assert ps == front + [last];
      if user in before {
        RowIsNewest(t, front, user);
        NewestPush(t, front, last, user, before[user]);
      } else {
        if user in t {
          StoredStays(t, front, user);
        }
        RowIffPut(t, front, user);
        NewestFirst(t, front, last, user, last.sender);
      }
    }
  }

  /** The same puts of the user, in any order and with repetitions. */
  ghost predicate SamePuts(a: seq<Token>, b: seq<Token>, user: string) {
    && (forall i :: Mine(a, user, i) ==> a[i] in b)
    && (forall i :: Mine(b, user, i) ==> b[i] in a)
  }

  /** All of the newest puts carry the same token. */
  ghost predicate OneNewestToken(t: Table, ps: seq<Token>, user: string) {
    forall i, j :: Newest(t, ps, user, i) && Newest(t, ps, user, j) ==> ps[i].token == ps[j].token
  }

  ghost predicate SameTokenAndTime(t1: Table, t2: Table, user: string) {
    && (user in t1 <==> user in t2)
    && (user in t1 ==> t1[user].token == t2[user].token && t1[user].ts == t2[user].ts)
  }

  lemma PutAmong(a: seq<Token>, b: seq<Token>, user: string, i: int) returns (j: int)
    requires SamePuts(a, b, user) && Mine(a, user, i)
    ensures Mine(b, user, j) && b[j] == a[i]
  {
    j :| 0 <= j < |b| && b[j] == a[i];
  }

  lemma NewestAmong(t: Table, a: seq<Token>, b: seq<Token>, user: string, i: int) returns (j: int)
    requires SamePuts(a, b, user) && Newest(t, a, user, i)
    ensures Newest(t, b, user, j) && b[j] == a[i]
  {
    j := PutAmong(a, b, user, i);
    forall k | Mine(b, user, k)
      ensures b[k].ts <= b[j].ts
    {
      var k' := PutAmong(b, a, user, k);
    }
  }

  lemma SameKeyPresent(t: Table, a: seq<Token>, b: seq<Token>, user: string)
    requires SamePuts(a, b, user)
    ensures user in MergeAll(t, a) <==> user in MergeAll(t, b)
  {
    if user in t {
      StoredStays(t, a, user);
      StoredStays(t, b, user);
    } else {
      RowIffPut(t, a, user);
      RowIffPut(t, b, user);
      if i :| Mine(a, user, i) {
        var j := PutAmong(a, b, user, i);
      }
      if j :| Mine(b, user, j) {
        var i := PutAmong(b, a, user, j);
      }
    }
  }

  /** If the newest puts agree on the token, the arrival order has no influence on token and
      timestamp, whether a row was there before or not. */
  lemma ArrivalOrderIrrelevant(t: Table, a: seq<Token>, b: seq<Token>, user: string)
    requires SamePuts(a, b, user) && OneNewestToken(t, a, user)
    ensures SameTokenAndTime(MergeAll(t, a), MergeAll(t, b), user)
  {
    SameKeyPresent(t, a, b, user);
    if user in MergeAll(t, a) {
      RowIsNewest(t, a, user);
      RowIsNewest(t, b, user);
      NewestAgree(t, a, b, user, MergeAll(t, a)[user], MergeAll(t, b)[user]);
    }
  }

  lemma NewestAgree(t: Table, a: seq<Token>, b: seq<Token>, user: string, r: Row, s: Row)
    requires SamePuts(a, b, user) && OneNewestToken(t, a, user)
    requires IsNewest(t, a, user, r) && IsNewest(t, b, user, s)
    ensures r.token == s.token && r.ts == s.ts
  {
    if j :| Newest(t, b, user, j) && s.token == b[j].token && s.ts == b[j].ts {
      var j' := NewestAmong(t, b, a, user, j);
      var i :| Newest(t, a, user, i) && r.token == a[i].token && r.ts == a[i].ts;
      assert Newest(t, a, user, j');
    } else if i :| Newest(t, a, user, i) {
      var i' := NewestAmong(t, a, b, user, i);
    }
  }

  function MovedLast(a: seq<Token>, i: nat): seq<Token>
    requires i < |a|
  {
    a[..i] + a[i + 1..] + [a[i]]
  }

  lemma MovedLastRearranges(a: seq<Token>, i: nat)
    requires i < |a|
    ensures multiset(MovedLast(a, i)) == multiset(a)
  {
    assert a == a[..i] + [a[i]] + a[i + 1..];
  }

  lemma RearrangedSamePuts(a: seq<Token>, b: seq<Token>, user: string)
    requires multiset(a) == multiset(b)
    ensures SamePuts(a, b, user)
  {
    forall x
      ensures x in a <==> x in b
    {
      assert x in multiset(a) <==> x in multiset(b);
    }
  }

  /** A newest put that arrives last decides the token. */
  lemma LastNewestWins(t: Table, a: seq<Token>, user: string, i: nat)
    requires Newest(t, a, user, i)
    ensures user in MergeAll(t, MovedLast(a, i)) && MergeAll(t, MovedLast(a, i))[user].token == a[i].token
  {
    var rest, b := a[..i] + a[i + 1..], MovedLast(a, i);
    assert b[..|b| - 1] == rest && b[|b| - 1] == a[i];
    if user in MergeAll(t, rest) {
      RowIsNewest(t, rest, user);
      assert forall k :: Mine(rest, user, k) ==> Mine(a, user, if k < i then k else k + 1);
    }
  }

  lemma OrderMatters(t: Table, a: seq<Token>, user: string) returns (b: seq<Token>)
    requires !OneNewestToken(t, a, user)
    ensures multiset(a) == multiset(b) && !SameTokenAndTime(MergeAll(t, a), MergeAll(t, b), user)
  {
    var i, j :| Newest(t, a, user, i) && Newest(t, a, user, j) && a[i].token != a[j].token;
    LastNewestWins(t, a, user, i);
    LastNewestWins(t, a, user, j);
    MovedLastRearranges(a, i);
    MovedLastRearranges(a, j);
    b := if SameTokenAndTime(MergeAll(t, a), MergeAll(t, MovedLast(a, i)), user)
         then MovedLast(a, j) else MovedLast(a, i);
  }

  /** The exact condition: no rearrangement of the puts changes token or timestamp if and only
      if all of the newest ones carry the same token. */
  lemma ArrivalOrderIff(t: Table, a: seq<Token>, user: string)
    ensures (forall b :: multiset(a) == multiset(b) ==> SameTokenAndTime(MergeAll(t, a), MergeAll(t, b), user))
       <==> OneNewestToken(t, a, user)
  {
    if OneNewestToken(t, a, user) {
      forall b | multiset(a) == multiset(b)
        ensures SameTokenAndTime(MergeAll(t, a), MergeAll(t, b), user)
      {
        RearrangedSamePuts(a, b, user);
        ArrivalOrderIrrelevant(t, a, b, user);
      }
    } else {
      var b := OrderMatters(t, a, user);
    }
  }
}

/** Message secrets and privacy tokens are looked up under a JID and under its counterpart,
    the phone number of a LID or the LID of a phone number. */
module AliasLookup {
  import opened Sql
  import opened SqlText
  import opened LidTable
  import PrivacyTokens

  const LID_SUFFIX := "@lid"
  const PN_SUFFIX := "@s.whatsapp.net"

  /** The scalar subquery: the counterpart of a JID string, NULL (None) if there is none. */
  ghost function Alias(t: Table, jid: string): Option<string> {
    if Like("%" + LID_SUFFIX, jid) then
      var lid := Replace(jid, LID_SUFFIX, "");
      if lid in t then Some(t[lid] + PN_SUFFIX) else None
    else if Like("%" + PN_SUFFIX, jid) then
      var pn := Replace(jid, PN_SUFFIX, "");
      if exists l :: Has(t, l, pn) then Some(LidOf(t, pn) + LID_SUFFIX) else None
    else None
  }

  /** column=$n OR column=(subquery); a comparison with NULL is not true. */
  ghost predicate Matches(t: Table, column: string, jid: string) {
    column == jid || Alias(t, jid) == Some(column)
  }

  /** The two JIDs of one row of `lid_map`. */
  ghost predicate Counterparts(t: Table, x: string, y: string) {
    exists l, p :: Has(t, l, p) &&
      ((x == l + LID_SUFFIX && y == p + PN_SUFFIX) || (x == p + PN_SUFFIX && y == l + LID_SUFFIX))
  }

  /** Users contain no '@', and the mapping is the partial bijection that LidCache keeps. */
  ghost predicate CleanMap(t: Table) {
    UniquePn(t) && forall l :: l in t ==> '@' !in l && '@' !in t[l]
  }

  lemma SuffixesDiffer(user: string)
    ensures Like("%" + LID_SUFFIX, user + LID_SUFFIX)
    ensures !Like("%" + LID_SUFFIX, user + PN_SUFFIX) && Like("%" + PN_SUFFIX, user + PN_SUFFIX)
  {
    var a, b := user + LID_SUFFIX, user + PN_SUFFIX;
    assert a[|a| - |LID_SUFFIX|..] == LID_SUFFIX;
    assert b[|b| - |PN_SUFFIX|..] == PN_SUFFIX;
    LikeSuffix(LID_SUFFIX, a);
    LikeSuffix(PN_SUFFIX, b);
    LikeSuffix(LID_SUFFIX, b);
    assert b[|b| - |LID_SUFFIX|..][0] == b[|b| - 4] == PN_SUFFIX[11] == '.';
    assert Fold(LID_SUFFIX[0]) != Fold('.');
  }

  /** The subquery finds the counterpart of exactly the users that have a mapping. */
  lemma AliasExact(t: Table, user: string)
    requires CleanMap(t) && '@' !in user
    ensures Alias(t, user + LID_SUFFIX) == if user in t then Some(t[user] + PN_SUFFIX) else None
    ensures Alias(t, user + PN_SUFFIX) ==
            if exists l :: Has(t, l, user) then Some(LidOf(t, user) + LID_SUFFIX) else None
  {
    SuffixesDiffer(user);
    ReplaceSuffix(user, LID_SUFFIX, "");
    ReplaceSuffix(user, PN_SUFFIX, "");
    assert user + "" == user;
  }

  /** A row makes each of its two JIDs the alias of the other. */
  lemma AliasOfRow(t: Table, l: string, p: string)
    requires CleanMap(t) && Has(t, l, p)
    ensures Alias(t, l + LID_SUFFIX) == Some(p + PN_SUFFIX)
    ensures Alias(t, p + PN_SUFFIX) == Some(l + LID_SUFFIX)
  {
    AliasExact(t, l);
    AliasExact(t, p);
    LookupsAtRow(t, l, p);
  }

  /** Which rows match does not depend on the identity that is asked for. */
  lemma MatchesSymmetric(t: Table, x: string, y: string, column: string)
    requires CleanMap(t) && (x == y || Counterparts(t, x, y))
    ensures Matches(t, column, x) <==> Matches(t, column, y)
  {
    if x != y {
      var l, p :| Has(t, l, p) &&
        ((x == l + LID_SUFFIX && y == p + PN_SUFFIX) || (x == p + PN_SUFFIX && y == l + LID_SUFFIX));
      AliasOfRow(t, l, p);
    }
  }

  /** At most one '@': the text of a JID, of a user or of a group. */
  ghost predicate OneAt(jid: string) {
    forall i, j :: 0 <= i < j < |jid| ==> jid[i] != '@' || jid[j] != '@'
  }

  lemma OnlyOccurrence(jid: string, suffix: string, n: nat)
    requires OneAt(jid) && |jid| == n + |suffix| && suffix != "" && suffix[0] == '@' == jid[n]
    requires Occurs(suffix, jid)
    ensures jid[n..] == suffix
  {
    OccursAt(suffix, jid);
    var i :| 0 <= i <= |jid| && suffix <= jid[i..];
    assert jid[i] == jid[i..][0] == '@';
    assert i == n;
  }

  /** LIKE ignores case and replace() does not: a suffix in other letters is not cut off. */
  lemma SuffixCut(jid: string, suffix: string)
    requires OneAt(jid) && suffix != "" && suffix[0] == '@' && '%' !in suffix && '_' !in suffix
    requires Like("%" + suffix, jid)
    ensures '@' in jid && |suffix| <= |jid|
    ensures suffix != jid[|jid| - |suffix|..] ==> Replace(jid, suffix, "") == jid
    ensures suffix == jid[|jid| - |suffix|..] ==> '@' !in jid[..|jid| - |suffix|]
  {
    LikeSuffix(suffix, jid);
    var n := |jid| - |suffix|;
    assert Fold(jid[n..][0]) == Fold('@') && jid[n] == '@';
    ReplaceIdentityIff(jid, suffix, "");
    if Occurs(suffix, jid) {
      OnlyOccurrence(jid, suffix, n);
    }
  }

  /** The subquery finds exactly the counterpart, for every JID there is. */
  lemma AliasIsCounterpart(t: Table, jid: string, other: string)
    requires CleanMap(t) && OneAt(jid)
    ensures Alias(t, jid) == Some(other) <==> Counterparts(t, jid, other)
  {
    if Counterparts(t, jid, other) {
      var l, p :| Has(t, l, p) &&
        ((jid == l + LID_SUFFIX && other == p + PN_SUFFIX) || (jid == p + PN_SUFFIX && other == l + LID_SUFFIX));
      AliasOfRow(t, l, p);
    }
    if Alias(t, jid) == Some(other) {
      AliasHasRow(t, jid, other);
    }
  }

  /** Cutting off a suffix leaves a user, or the whole JID with its '@'. */
  lemma UserCut(jid: string, suffix: string)
    requires OneAt(jid) && suffix != "" && suffix[0] == '@' && '%' !in suffix && '_' !in suffix
    requires Like("%" + suffix, jid)
    ensures '@' in Replace(jid, suffix, "") || jid == Replace(jid, suffix, "") + suffix
  {
    SuffixCut(jid, suffix);
    var n := |jid| - |suffix|;
    if suffix == jid[n..] {
      assert jid == jid[..n] + suffix;
      ReplaceSuffix(jid[..n], suffix, "");
      assert jid[..n] + "" == jid[..n];
    }
  }

  lemma AliasHasRow(t: Table, jid: string, other: string)
    requires CleanMap(t) && OneAt(jid) && Alias(t, jid) == Some(other)
    ensures Counterparts(t, jid, other)
  {
    if Like("%" + LID_SUFFIX, jid) {
      UserCut(jid, LID_SUFFIX);
      var user := Replace(jid, LID_SUFFIX, "");
      assert Has(t, user, t[user]);
    } else {
      UserCut(jid, PN_SUFFIX);
      var user := Replace(jid, PN_SUFFIX, "");
      var l :| Has(t, l, user);
      LookupsAtRow(t, l, user);
    }
  }

  /** So a column matches exactly if it is the JID itself or its counterpart. */
  lemma MatchesIff(t: Table, column: string, jid: string)
    requires CleanMap(t) && OneAt(jid)
    ensures Matches(t, column, jid) <==> column == jid || Counterparts(t, jid, column)
  {
    AliasIsCounterpart(t, jid, column);
  }

  // ---------------------------------------------------------------- message secrets

  datatype SecretKey = SecretKey(chat: string, sender: string, id: string)

  type Secrets = map<SecretKey, Bytes>

  ghost function Found(t: Table, secrets: Secrets, chat: string, sender: string, id: string): set<SecretKey> {
    set k | k in secrets && k.id == id && Matches(t, k.chat, chat) && Matches(t, k.sender, sender)
  }

  /** Chat and sender are the given ones or their counterparts. */
  ghost predicate StoredUnder(t: Table, k: SecretKey, chat: string, sender: string) {
    && (k.chat == chat || Counterparts(t, chat, k.chat))
    && (k.sender == sender || Counterparts(t, sender, k.sender))
  }

  lemma FoundIff(t: Table, secrets: Secrets, chat: string, sender: string, id: string)
    requires CleanMap(t) && OneAt(chat) && OneAt(sender)
    ensures forall k :: k in Found(t, secrets, chat, sender, id) <==>
              k in secrets && k.id == id && StoredUnder(t, k, chat, sender)
  {
    forall k: SecretKey
      ensures Matches(t, k.chat, chat) && Matches(t, k.sender, sender) <==> StoredUnder(t, k, chat, sender)
    {
      MatchesIff(t, k.chat, chat);
      MatchesIff(t, k.sender, sender);
    }
  }

  /** Replacing the chat, the sender or both by their counterparts finds the same rows. */
  lemma FoundSymmetric(t: Table, secrets: Secrets,
                       chat: string, chat': string, sender: string, sender': string, id: string)
    requires CleanMap(t)
    requires chat == chat' || Counterparts(t, chat, chat')
    requires sender == sender' || Counterparts(t, sender, sender')
    ensures Found(t, secrets, chat, sender, id) == Found(t, secrets, chat', sender', id)
  {
    forall k | k in secrets
      ensures Matches(t, k.chat, chat) <==> Matches(t, k.chat, chat')
      ensures Matches(t, k.sender, sender) <==> Matches(t, k.sender, sender')
    {
      MatchesSymmetric(t, chat, chat', k.chat);
      MatchesSymmetric(t, sender, sender', k.sender);
    }
  }

  /** INSERT ... ON CONFLICT DO NOTHING. */
  function InsertSecret(secrets: Secrets, k: SecretKey, key: Bytes): Secrets {
    if k in secrets then secrets else secrets[k := key]
  }

  function InsertSecrets(secrets: Secrets, inserts: seq<(SecretKey, Bytes)>): Secrets {
    if inserts == [] then secrets
    else
      var last := inserts[|inserts| - 1];
      InsertSecret(InsertSecrets(secrets, inserts[..|inserts| - 1]), last.0, last.1)
  }

  /** Insert i is the first one for k. */
  ghost predicate FirstFor(inserts: seq<(SecretKey, Bytes)>, k: SecretKey, i: int) {
    0 <= i < |inserts| && inserts[i].0 == k && forall j :: 0 <= j < i ==> inserts[j].0 != k
  }

  /** Its index. */
  function FirstIndex(inserts: seq<(SecretKey, Bytes)>, k: SecretKey): (i: Option<nat>)
    ensures i.Some? ==> i.value < |inserts|
  {
    if inserts == [] then None
    else
      var before := FirstIndex(inserts[..|inserts| - 1], k);
      if before.Some? then before
      else if inserts[|inserts| - 1].0 == k then Some(|inserts| - 1) else None
  }

  lemma {:induction false} FirstIndexIsFirst(inserts: seq<(SecretKey, Bytes)>, k: SecretKey)
    ensures FirstIndex(inserts, k).Some? ==> FirstFor(inserts, k, FirstIndex(inserts, k).value)
    ensures FirstIndex(inserts, k).None? ==> forall j :: 0 <= j < |inserts| ==> inserts[j].0 != k
  {
    if inserts != [] {
      FirstIndexIsFirst(inserts[..|inserts| - 1], k);
      assert forall j :: 0 <= j < |inserts| - 1 ==> inserts[..|inserts| - 1][j] == inserts[j];
    }
  }

  lemma OneFirst(inserts: seq<(SecretKey, Bytes)>, k: SecretKey, i: int)
    requires FirstFor(inserts, k, i)
    ensures FirstIndex(inserts, k) == Some(i)
  {
    FirstIndexIsFirst(inserts, k);
  }

  lemma {:induction false} InsertSecretsAt(secrets: Secrets, inserts: seq<(SecretKey, Bytes)>, k: SecretKey)
    ensures k in InsertSecrets(secrets, inserts) <==> k in secrets || FirstIndex(inserts, k).Some?
    ensures var s := InsertSecrets(secrets, inserts);
            k in s ==> s[k] == if k in secrets then secrets[k] else inserts[FirstIndex(inserts, k).value].1
  {
    if inserts != [] {
      InsertSecretsAt(secrets, inserts[..|inserts| - 1], k);
    }
  }

  /** The first secret stored for a key stays: earlier rows win, then earlier inserts. */
  lemma InsertSecretsKeepFirst(secrets: Secrets, inserts: seq<(SecretKey, Bytes)>)
    ensures var s := InsertSecrets(secrets, inserts);
            && (forall k :: k in s <==> k in secrets || exists i :: FirstFor(inserts, k, i))
            && (forall k :: k in secrets ==> s[k] == secrets[k])
            && (forall i, k :: FirstFor(inserts, k, i) && k !in secrets ==> s[k] == inserts[i].1)
  {
    var s := InsertSecrets(secrets, inserts);
    forall k
      ensures k in s <==> k in secrets || exists i :: FirstFor(inserts, k, i)
      ensures k in secrets ==> s[k] == secrets[k]
      ensures k !in secrets ==> forall i :: FirstFor(inserts, k, i) ==> s[k] == inserts[i].1
    {
      InsertSecretsAt(secrets, inserts, k);
      FirstIndexIsFirst(inserts, k);
      forall i | FirstFor(inserts, k, i)
        ensures FirstIndex(inserts, k) == Some(i)
      {
        OneFirst(inserts, k, i);
      }
    }
  }

  /** A secret stored under one identity is found under the other. */
  lemma StoredIsFindable(t: Table, secrets: Secrets, k: SecretKey, key: Bytes, chat: string, sender: string)
    requires CleanMap(t)
    requires k.chat == chat || Counterparts(t, k.chat, chat)
    requires k.sender == sender || Counterparts(t, k.sender, sender)
    ensures k in Found(t, InsertSecret(secrets, k, key), chat, sender, k.id)
  {
    FoundSymmetric(t, InsertSecret(secrets, k, key), k.chat, chat, k.sender, sender, k.id);
  }

  /** The identities under which the query looks for a JID: two at most. */
  ghost function Forms(t: Table, jid: string): set<string> {
    {jid} + if Alias(t, jid).Some? then {Alias(t, jid).value} else {}
  }

  /** A row that the query may deliver: it has no ORDER BY, and one row is read. */
  ghost predicate MayAnswer(t: Table, secrets: Secrets, chat: string, sender: string, id: string,
                            answer: (Bytes, string)) {
    exists k :: k in Found(t, secrets, chat, sender, id) && answer == (secrets[k], k.sender)
  }

  /** The rows that match are those of the at most four combined identities. */
  lemma FoundAreForms(t: Table, secrets: Secrets, chat: string, sender: string, k: SecretKey)
    ensures k in Found(t, secrets, chat, sender, k.id)
       <==> k in secrets && k.chat in Forms(t, chat) && k.sender in Forms(t, sender)
  {
  }

  /** When a lookup under any identities of chat and sender is sure to answer the secret stored
      under k, and when it is sure to name its sender too: exactly if no row for the same message
      under the other identities says something else. */
  lemma AnswerDeterminedIff(t: Table, secrets: Secrets, k: SecretKey, chat: string, sender: string)
    requires CleanMap(t) && k in secrets
    requires k.chat == chat || Counterparts(t, k.chat, chat)
    requires k.sender == sender || Counterparts(t, k.sender, sender)
    ensures (forall a :: MayAnswer(t, secrets, chat, sender, k.id, a) ==> a.0 == secrets[k])
       <==> forall c, s :: c in Forms(t, k.chat) && s in Forms(t, k.sender) ==>
              SecretKey(c, s, k.id) in secrets ==> secrets[SecretKey(c, s, k.id)] == secrets[k]
    ensures (forall a :: MayAnswer(t, secrets, chat, sender, k.id, a) ==> a == (secrets[k], k.sender))
       <==> forall c, s :: c in Forms(t, k.chat) && s in Forms(t, k.sender) ==>
              SecretKey(c, s, k.id) in secrets ==> secrets[SecretKey(c, s, k.id)] == secrets[k] && s == k.sender
  {
    FoundSymmetric(t, secrets, k.chat, chat, k.sender, sender, k.id);
    forall x: SecretKey | x.id == k.id
      ensures x in Found(t, secrets, chat, sender, k.id)
         <==> x in secrets && x.chat in Forms(t, k.chat) && x.sender in Forms(t, k.sender)
    {
      FoundAreForms(t, secrets, k.chat, k.sender, x);
    }
    forall c, s | c in Forms(t, k.chat) && s in Forms(t, k.sender) && SecretKey(c, s, k.id) in secrets
      ensures MayAnswer(t, secrets, chat, sender, k.id, (secrets[SecretKey(c, s, k.id)], s))
    {
      assert SecretKey(c, s, k.id) in Found(t, secrets, chat, sender, k.id);
    }
    forall a | MayAnswer(t, secrets, chat, sender, k.id, a)
      ensures exists c, s :: c in Forms(t, k.chat) && s in Forms(t, k.sender) &&
                SecretKey(c, s, k.id) in secrets && a == (secrets[SecretKey(c, s, k.id)], s)
    {
      var x :| x in Found(t, secrets, chat, sender, k.id) && a == (secrets[x], x.sender);
      assert x == SecretKey(x.chat, x.sender, k.id);
    }
  }

  // ---------------------------------------------------------------- privacy tokens

  ghost function TokenRows(t: Table, tokens: PrivacyTokens.Table, user: string): set<string> {
    set u | u in tokens && Matches(t, u, user)
  }

  lemma TokenRowsIff(t: Table, tokens: PrivacyTokens.Table, user: string)
    requires CleanMap(t) && OneAt(user)
    ensures forall u :: u in TokenRows(t, tokens, user) <==> u in tokens && (u == user || Counterparts(t, user, u))
  {
    forall u
      ensures Matches(t, u, user) <==> u == user || Counterparts(t, user, u)
    {
      MatchesIff(t, u, user);
    }
  }

  /** ORDER BY timestamp DESC LIMIT 1 may deliver this row. */
  ghost predicate Newest(t: Table, tokens: PrivacyTokens.Table, user: string, u: string) {
    u in TokenRows(t, tokens, user) && forall v :: v in TokenRows(t, tokens, user) ==> tokens[v].ts <= tokens[u].ts
  }

  /** The rows that may be delivered, and so the newest timestamp, are the same from either
      identity. */
  lemma NewestSymmetric(t: Table, tokens: PrivacyTokens.Table, x: string, y: string, u: string, v: string)
    requires CleanMap(t) && (x == y || Counterparts(t, x, y))
    ensures Newest(t, tokens, x, u) <==> Newest(t, tokens, y, u)
    ensures Newest(t, tokens, x, u) && Newest(t, tokens, y, v) ==> tokens[u].ts == tokens[v].ts
  {
    forall w
      ensures Matches(t, w, x) <==> Matches(t, w, y)
    {
      MatchesSymmetric(t, x, y, w);
    }
    assert TokenRows(t, tokens, x) == TokenRows(t, tokens, y);
  }

  lemma {:induction false} NewestExists(tokens: PrivacyTokens.Table, us: set<string>)
    requires us != {} && forall u :: u in us ==> u in tokens
    ensures exists u :: u in us && forall v :: v in us ==> tokens[v].ts <= tokens[u].ts
    decreases |us|
  {
    var x :| x in us;
    var rest := us - {x};
    assert us == rest + {x};
    if rest == {} {
      assert us == {x};
    } else {
      NewestExists(tokens, rest);
      var u :| u in rest && forall v :: v in rest ==> tokens[v].ts <= tokens[u].ts;
      var best := if tokens[u].ts < tokens[x].ts then x else u;
      assert best in us && forall v :: v in us ==> tokens[v].ts <= tokens[best].ts;
    }
  }

  // ---------------------------------------------------------------- the calls

  class SecretStore {
    var lidMap: Table
    var secrets: Secrets
    var tokens: PrivacyTokens.Table

    constructor (lidMap: Table, secrets: Secrets, tokens: PrivacyTokens.Table)
      ensures this.lidMap == lidMap && this.secrets == secrets && this.tokens == tokens
    {
      this.lidMap := lidMap;
      this.secrets := secrets;
      this.tokens := tokens;
    }

    /** The scalar subquery, computed. */
    method QueryAlias(jid: string) returns (alias: Option<string>)
      requires UniquePn(lidMap)
      ensures alias == Alias(lidMap, jid)
    {
      if Like("%" + LID_SUFFIX, jid) {
        var lid := Replace(jid, LID_SUFFIX, "");
        return if lid in lidMap then Some(lidMap[lid] + PN_SUFFIX) else None;
      }
      if Like("%" + PN_SUFFIX, jid) {
        var pn := Replace(jid, PN_SUFFIX, "");
        if l :| l in lidMap && lidMap[l] == pn {
          assert Has(lidMap, l, pn);
          LookupsAtRow(lidMap, l, pn);
          return Some(l + LID_SUFFIX);
        }
      }
      alias := None;
    }

    /** One transaction; the n+2 steps are begin, n inserts, commit. */
    method PutMessageSecrets(inserts: seq<(SecretKey, Bytes)>, fault: Fault) returns (ok: bool)
      modifies this`secrets
      ensures ok == (inserts == [] || fault.NoFault? || fault.step > |inserts| + 1)
      ensures secrets == if ok then InsertSecrets(old(secrets), inserts) else old(secrets)
    {
      if inserts == [] {
        return true;
      }
      if Fails(fault, 0) {
        return false;
      }
      var snapshot := secrets;
      for i := 0 to |inserts|
        invariant secrets == InsertSecrets(snapshot, inserts[..i])
        invariant fault.NoFault? || fault.step > i
      {
        assert inserts[..i + 1][..i] == inserts[..i];
        if Fails(fault, i + 1) {
          secrets := snapshot;
          return false;
        }
        secrets := InsertSecret(secrets, inserts[i].0, inserts[i].1);
      }
      assert inserts[..|inserts|] == inserts;
      if Fails(fault, |inserts| + 1) {
        secrets := snapshot;
        return false;
      }
      ok := true;
    }

    /** Any one of the matching rows: its secret and the sender it is stored under. */
    method GetMessageSecret(chat: string, sender: string, id: string) returns (r: Option<(Bytes, string)>)
      requires UniquePn(lidMap)
      ensures r.None? <==> Found(lidMap, secrets, chat, sender, id) == {}
      ensures r.Some? ==> MayAnswer(lidMap, secrets, chat, sender, id, r.value)
      ensures CleanMap(lidMap) && OneAt(chat) && OneAt(sender) ==>
                && (r.None? <==> forall k :: k in secrets && k.id == id ==> !StoredUnder(lidMap, k, chat, sender))
                && (r.Some? ==>
                      exists k :: k in secrets && k.id == id && StoredUnder(lidMap, k, chat, sender)
                                  && r.value == (secrets[k], k.sender))
    {
      if CleanMap(lidMap) && OneAt(chat) && OneAt(sender) {
        FoundIff(lidMap, secrets, chat, sender, id);
      }
      var chatAlias := QueryAlias(chat);
      var senderAlias := QueryAlias(sender);
      if k :| k in secrets && k.id == id && (k.chat == chat || chatAlias == Some(k.chat))
                                         && (k.sender == sender || senderAlias == Some(k.sender)) {
        assert k in Found(lidMap, secrets, chat, sender, id);
        return Some((secrets[k], k.sender));
      }
      r := None;
    }

    /** A newest matching token row, if any row matches. */
    method GetPrivacyToken(user: string) returns (r: Option<PrivacyTokens.Row>)
      requires UniquePn(lidMap)
      ensures r.None? <==> TokenRows(lidMap, tokens, user) == {}
      ensures r.Some? ==> exists u :: Newest(lidMap, tokens, user, u) && r.value == tokens[u]
      ensures CleanMap(lidMap) && OneAt(user) ==>
                && (r.None? <==> forall u :: u in tokens ==> u != user && !Counterparts(lidMap, user, u))
                && (r.Some? ==>
                      && (exists u :: u in tokens && r.value == tokens[u]
                                      && (u == user || Counterparts(lidMap, user, u)))
                      && (forall u :: u in tokens && (u == user || Counterparts(lidMap, user, u)) ==>
                            tokens[u].ts <= r.value.ts))
    {
      if CleanMap(lidMap) && OneAt(user) {
        TokenRowsIff(lidMap, tokens, user);
      }
      var alias := QueryAlias(user);
      var rows := set u | u in tokens && (u == user || alias == Some(u));
      assert rows == TokenRows(lidMap, tokens, user);
      if rows == {} {
        return None;
      }
      NewestExists(tokens, rows);
      var u :| u in rows && forall v | v in rows :: tokens[v].ts <= tokens[u].ts;
      assert Newest(lidMap, tokens, user, u);
      r := Some(tokens[u]);
    }
  }
}
